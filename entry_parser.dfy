/**
 Parsing one publication entry (`parse_entry`) and the first-author surname
 (`extract_first_author_surname`).

 Each field is a regular-expression search in the source; here each pattern is a
 scanner that says where the pattern matches at a position, and `FindFirst` picks
 the leftmost position, as `re.search` does. Greedy and lazy quantifiers are
 written out as "longest run" and "shortest end" respectively; where backtracking
 could in principle change the outcome, the comment on the scanner says why it
 cannot. Entry text never contains a line break (the list reader joins lines with
 spaces), so `.` matches every character and `$` is the end of the text.
 */
module EntryParser {
  import opened Text
  import opened Doi
  import opened Records

  // ---------------------------------------------------------------------------
  // Year

  /** `\(\d{4}\)` matches at `p`. */
  predicate YearParenAt(s: string, p: nat) {
    p + 6 <= |s| && s[p] == '(' && AllDigits(s[p + 1..p + 5]) && s[p + 5] == ')'
  }

  /** The position of the first `(dddd)` in `s`. */
  function FirstYearParen(s: string): (r: Option<nat>)
    ensures r.Some? ==> YearParenAt(s, r.value)
    ensures r.Some? ==> forall k :: 0 <= k < r.value ==> !YearParenAt(s, k)
    ensures r.None? ==> forall k: nat :: !YearParenAt(s, k)
  {
    var P := (p: nat) => YearParenAt(s, p);
    assert forall k: nat :: P(k) == YearParenAt(s, k);
    FindFirst(P, 0, |s|)
  }

  /** The year of the first `(dddd)` in the entry text. */
  function YearInText(s: string): (r: Option<nat>)
    ensures r.None? <==> forall k: nat :: !YearParenAt(s, k)
    ensures r.Some? ==> exists p: nat :: YearParenAt(s, p) && r.value == DigitsToNat(s[p + 1..p + 5])
                                   && forall k :: 0 <= k < p ==> !YearParenAt(s, k)
  {
    match FirstYearParen(s)
    case Some(p) => Some(DigitsToNat(s[p + 1..p + 5]))
    case None => None
  }

  /** Why an entry cannot be parsed: `int(section)` raises on its header. */
  datatype ParseError = NonNumericSection(header: string)

  /** The section header supplies the year unless it is absent, empty or `Preprints`. */
  predicate YearFromSection(section: Option<string>) {
    Truthy(section) && section.value != "Preprints"
  }

  /** The entry's year: `int(section)` under a year header, else the first `(dddd)`
      of the text. `int` accepts a string of ASCII digits and fails on anything else. */
  function EntryYear(section: Option<string>, content: string): (r: Result<Option<nat>, ParseError>)
    ensures r.Failure? <==> YearFromSection(section) && !AllDigits(section.value)
    ensures r.Success? && YearFromSection(section) ==> r.value == Some(DigitsToNat(section.value))
    ensures !YearFromSection(section) ==> r == Success(YearInText(content))
  {
    if YearFromSection(section) then
      if AllDigits(section.value) then Success(Some(DigitsToNat(section.value)))
      else Failure(NonNumericSection(section.value))
    else Success(YearInText(content))
  }

  // ---------------------------------------------------------------------------
  // Link URL

  /** The link labels, in the order of the alternation. No two of them can match at
      the same place, so the order never decides a match. */
  const LinkLabels: seq<string> := ["online here", "medRxiv link", "Open access link", "link"]

  /** Where the URL starts when one of the labels, followed by `](`, occurs at `q`
      (case-insensitively), trying the labels from row `k` on. */
  function LabelFrom(s: string, q: nat, k: nat): (r: Option<nat>)
    decreases |LinkLabels| - k
    ensures r.Some? ==> q + 3 <= r.value <= |s| && s[r.value - 2..r.value] == "]("
  {
    if k >= |LinkLabels| then None
    else if OccursAtIgnoreCase(s, LinkLabels[k] + "](", q) then
      var u := q + |LinkLabels[k]| + 2;
      LabelCloses(s, LinkLabels[k], q);
      Some(u)
    else LabelFrom(s, q, k + 1)
  }

  /** A link label `tag` followed by `](`, matched ignoring case, ends in the `](` itself. */
  lemma LabelCloses(s: string, tag: string, q: nat)
    requires OccursAtIgnoreCase(s, tag + "](", q)
    ensures var u := q + |tag| + 2; u <= |s| && s[u - 2..u] == "]("
  {
    var u := q + |tag| + 2;
    OccursAtIgnoreCaseChar(s, tag + "](", q, |tag|);
    OccursAtIgnoreCaseChar(s, tag + "](", q, |tag| + 1);
    assert (tag + "](")[|tag|] == ']' && (tag + "](")[|tag| + 1] == '(';
    assert s[u - 2] == ']' && s[u - 1] == '(';
  }

  /** `https?://[^\)]+\)` at `u` (case-insensitive): where the URL group ends, just
      before its closing parenthesis. `s?` is tried with the `s` first; without it the
      `:` would have to be an `s`, so the two tries never both succeed. */
  function UrlEnd(s: string, u: nat): (r: Option<nat>)
    requires u <= |s|
    ensures r.Some? ==> u + 8 <= r.value < |s| && s[r.value] == ')'
    ensures r.Some? ==> OccursAtIgnoreCase(s, "http", u)
    ensures r.Some? ==> forall k :: u <= k < r.value ==> s[k] != ')'
  {
    if !OccursAtIgnoreCase(s, "http", u) then None
    else
      var v := if OccursAtIgnoreCase(s, "s://", u + 4) then u + 8
               else if OccursAt(s, "://", u + 4) then u + 7
               else 0;
      if v == 0 then None
      else
        assert forall k :: u <= k < v ==> s[k] != ')' by {
          forall k | u <= k < v ensures s[k] != ')' {
            if k < u + 4 {
              assert Lower(s[u..u + 4])[k - u] == Lower("http")[k - u];
            } else if v == u + 8 {
              assert Lower(s[u + 4..u + 8])[k - u - 4] == Lower("s://")[k - u - 4];
            } else {
              assert s[u + 4..u + 7][k - u - 4] == "://"[k - u - 4];
            }
          }
        }
        var e := SkipNotIn(s, v, {')'});
        if e == v || e == |s| then None else Some(e)
  }

  /** The URL of a `[label](http…)` link opening at `p`. */
  function LinkAt(s: string, p: nat): (r: Option<string>)
    ensures r.Some? ==> |r.value| >= 8 && OccursAtIgnoreCase(r.value, "http", 0)
    ensures r.Some? ==> ')' !in r.value
  {
    if p >= |s| || s[p] != '[' then None
    else
      match LabelFrom(s, p + 1, 0)
      case Some(u) =>
        (match UrlEnd(s, u)
         case Some(e) =>
           OccursAtIgnoreCaseSlice(s, "http", u, e);
           SliceAvoids(s, u, e, ')');
           Some(s[u..e])
         case None => None)
      case None => None
  }

  /** The URL of the first recognised link in the entry. */
  function LinkUrl(s: string): (r: Option<string>)
    ensures r.Some? ==> |r.value| >= 8 && OccursAtIgnoreCase(r.value, "http", 0)
    ensures r.Some? ==> ')' !in r.value
    ensures r.None? <==> forall p: nat :: p <= |s| ==> LinkAt(s, p).None?
    ensures r.Some? ==> exists p: nat :: p <= |s| && LinkAt(s, p) == r
                                   && forall q: nat :: q < p ==> LinkAt(s, q).None?
  {
    var P := (p: nat) => LinkAt(s, p).Some?;
    assert forall k: nat :: P(k) == LinkAt(s, k).Some?;
    match FindFirst(P, 0, |s|)
    case Some(p) => LinkAt(s, p)
    case None => None
  }

  // ---------------------------------------------------------------------------
  // DOI written in the text

  /** The characters `rstrip('.,;)')` removes from a DOI found in the text. */
  const TextDoiJunk: set<char> := {'.', ',', ';', ')'}

  /** `(?:doi:|DOI:?)\s*(10\.\d{4,}/[^\s\]]+)` at `p` (case-insensitive): `doi`, an
      optional colon, optional whitespace, then the DOI, which here may contain `)`.
      When a colon follows `doi`, the colon-less try cannot match either, since the
      DOI would have to start with that colon. */
  function TextDoiAt(s: string, p: nat): (r: Option<string>)
    ensures r.Some? ==> LooksLikeDoi(r.value)
    ensures r.Some? ==> forall k :: 0 <= k < |r.value| ==> !IsSpace(r.value[k]) && r.value[k] != ']'
  {
    if !OccursAtIgnoreCase(s, "doi", p) then None
    else
      var q := if p + 3 < |s| && s[p + 3] == ':' then p + 4 else p + 3;
      var b := SkipSpaces(s, q);
      match BodyEnd(s, b, false, false)
      case Some(e) =>
        BodyHasNoBreak(s, b, false, false);
        Some(s[b..e])
      case None => None
  }

  /** A DOI found in the text with trailing `.,;)` removed; stripping keeps its shape. */
  function TrimmedTextDoi(g: string): (r: string)
    requires LooksLikeDoi(g)
    requires forall k :: 0 <= k < |g| ==> !IsSpace(g[k]) && g[k] != ']'
    ensures r == RStripChars(g, TextDoiJunk)
    ensures LooksLikeDoi(r) && r[|r| - 1] !in TextDoiJunk
    ensures forall k :: 0 <= k < |r| ==> !IsSpace(r[k]) && r[k] != ']'
  {
    var r := RStripChars(g, TextDoiJunk);
    StripKeepsDoiShape(g, TextDoiJunk);
    assert forall k :: 0 <= k < |r| ==> r[k] == g[k];
    r
  }

  /** The leftmost position where the text-DOI pattern matches. */
  function FirstTextDoi(s: string): (r: Option<nat>)
    ensures r.Some? ==> r.value <= |s| && TextDoiAt(s, r.value).Some?
    ensures r.Some? ==> forall q: nat :: q < r.value ==> TextDoiAt(s, q).None?
    ensures r.None? ==> forall p: nat :: p <= |s| ==> TextDoiAt(s, p).None?
  {
    var P := (p: nat) => TextDoiAt(s, p).Some?;
    assert forall k: nat :: P(k) == TextDoiAt(s, k).Some?;
    FindFirst(P, 0, |s|)
  }

  /** The first DOI written in the text, with trailing `.,;)` removed. */
  function DoiInText(s: string): (r: Option<string>)
    ensures r.Some? ==> LooksLikeDoi(r.value)
    ensures r.Some? ==> r.value[|r.value| - 1] !in TextDoiJunk
    ensures r.Some? ==> forall k :: 0 <= k < |r.value| ==> !IsSpace(r.value[k]) && r.value[k] != ']'
  {
    match FirstTextDoi(s)
    case Some(p) => Some(TrimmedTextDoi(TextDoiAt(s, p).value))
    case None => None
  }

  /** There is no DOI in the text iff the pattern matches nowhere; otherwise it
      is the trimmed match at the leftmost position where the pattern matches. */
  lemma DoiInTextLeftmost(s: string)
    ensures DoiInText(s).None? <==> forall p: nat :: p <= |s| ==> TextDoiAt(s, p).None?
    ensures DoiInText(s).Some? ==>
      exists p: nat :: p <= |s| && TextDoiAt(s, p).Some?
                    && DoiInText(s).value == TrimmedTextDoi(TextDoiAt(s, p).value)
                    && forall q: nat :: q < p ==> TextDoiAt(s, q).None?
  {
    match FirstTextDoi(s)
    case Some(p) =>
      assert DoiInText(s).value == TrimmedTextDoi(TextDoiAt(s, p).value);
    case None =>
  }

  // ---------------------------------------------------------------------------
  // Title

  /** Where `\*\*([^*]+)\*\*` ends when it matches at `i` (just after the closing `**`). */
  function BoldEnd(s: string, i: nat): (r: Option<nat>)
    ensures r.Some? ==> i + 5 <= r.value <= |s|
    ensures r.Some? ==> OccursAt(s, "**", i) && OccursAt(s, "**", r.value - 2)
    ensures r.Some? ==> forall k :: i + 2 <= k < r.value - 2 ==> s[k] != '*'
  {
    if !OccursAt(s, "**", i) then None
    else
      var e := SkipNotIn(s, i + 2, {'*'});
      if e == i + 2 || !OccursAt(s, "**", e) then None else Some(e + 2)
  }

  /** `re.findall(r'\*\*([^*]+)\*\*', s)` from position `i`: the texts of the
      non-overlapping bold spans, left to right. */
  function BoldSpans(s: string, i: nat): (r: seq<string>)
    requires i <= |s|
    decreases |s| - i
    ensures forall k :: 0 <= k < |r| ==> r[k] != [] && '*' !in r[k]
  {
    if i == |s| then []
    else
      match BoldEnd(s, i)
      case Some(e) =>
        var span := s[i + 2..e - 2];
        assert forall k :: 0 <= k < |span| ==> span[k] == s[i + 2 + k];
        [span] + BoldSpans(s, e)
      case None => BoldSpans(s, i + 1)
  }

  /** `^Atkins\s*KE\*?$` under `re.IGNORECASE`: the highlighted author's own name. */
  predicate IsAtkinsName(c: string) {
    OccursAtIgnoreCase(c, "atkins", 0)
    && var k := SkipSpaces(c, 6);
    OccursAtIgnoreCase(c, "ke", k) && (k + 2 == |c| || (k + 3 == |c| && c[k + 2] == '*'))
  }

  /** A stripped bold span that the source accepts as the title. */
  predicate TitleCandidate(c: string) {
    !IsAtkinsName(c) && |c| >= 10
  }

  /** The first bold span that, once stripped, is neither the author's name nor
      shorter than ten characters. */
  function FirstTitle(spans: seq<string>): (r: Option<string>)
    ensures r.Some? ==> TitleCandidate(r.value)
    ensures r.Some? ==> exists k :: 0 <= k < |spans| && r.value == Strip(spans[k])
    ensures r.None? <==> forall k :: 0 <= k < |spans| ==> !TitleCandidate(Strip(spans[k]))
  {
    if spans == [] then None
    else
      var c := Strip(spans[0]);
      if IsAtkinsName(c) || |c| < 10 then
        var r := FirstTitle(spans[1..]);
        assert forall k :: 1 <= k < |spans| ==> spans[k] == spans[1..][k - 1];
        r
      else Some(c)
  }

  /** The journal names the source cuts a fallback title at (case-insensitive). */
  const Venues: seq<string> :=
    ["BMC", "PLoS", "PNAS", "Science", "Nature", "Lancet", "Vaccine", "Value in Health", "Epidemics"]

  predicate VenueAt(t: string, i: nat) {
    exists k :: 0 <= k < |Venues| && OccursAtIgnoreCase(t, Venues[k], i)
  }

  /** `\s*(BMC|…|Epidemics).*$` matches at `p`: optional whitespace, then a venue. */
  predicate VenueCutAt(t: string, p: nat) {
    p <= |t| && VenueAt(t, SkipSpaces(t, p))
  }

  /** `re.sub(r'\s*(BMC|…).*$', '', t, flags=re.IGNORECASE)`: everything from the
      leftmost venue cut on is removed. */
  function CutAtVenue(t: string): (r: string)
    ensures |r| <= |t| && r == t[..|r|]
    ensures forall p :: 0 <= p < |r| ==> !VenueCutAt(t, p)
    ensures |r| < |t| ==> VenueCutAt(t, |r|)
  {
    var P := (p: nat) => VenueCutAt(t, p);
    assert forall k: nat :: P(k) == VenueCutAt(t, k);
    match FindFirst(P, 0, |t|)
    case Some(p) => t[..p]
    case None => t
  }

  /** `\*[^*]+\*` at `e`. */
  predicate StarredAt(s: string, e: nat) {
    e < |s| && s[e] == '*'
    && var f := SkipNotIn(s, e + 1, {'*'});
    f > e + 1 && f < |s|
  }

  /** `\s+\d+\s*\(` at `e`. */
  predicate IssueAfterSpaceAt(s: string, e: nat) {
    e < |s| && IsSpace(s[e])
    && var f := SkipSpaces(s, e);
    var g := SkipDigits(s, f);
    g > f && var h := SkipSpaces(s, g); h < |s| && s[h] == '('
  }

  /** `\s+doi:` or `\s+DOI:` at `e` (both the same under `re.IGNORECASE`). */
  predicate DoiAfterSpaceAt(s: string, e: nat) {
    e < |s| && IsSpace(s[e]) && OccursAtIgnoreCase(s, "doi:", SkipSpaces(s, e))
  }

  /** The alternatives that end the lazily matched title after the year. */
  predicate TerminatorAt(s: string, e: nat) {
    e <= |s|
    && (|| StarredAt(s, e)
        || IssueAfterSpaceAt(s, e)
        || DoiAfterSpaceAt(s, e)
        || OccursAtIgnoreCase(s, "[online", e)
        || SkipSpaces(s, e) == |s|)
  }

  /** `\s*$` always matches at the end of the text. */
  lemma TerminatorAtEnd(s: string)
    ensures TerminatorAt(s, |s|)
  {
    assert SkipSpaces(s, |s|) == |s|;
  }

  /** The first place at or after `e` where a terminator matches: where the lazy
      title group stops growing. */
  function TitleEnd(s: string, e: nat): (r: nat)
    requires e <= |s|
    decreases |s| - e
    ensures e <= r <= |s| && TerminatorAt(s, r)
    ensures forall k :: e <= k < r ==> !TerminatorAt(s, k)
  {
    if e == |s| then TerminatorAtEnd(s); e
    else if TerminatorAt(s, e) then e
    else TitleEnd(s, e + 1)
  }

  /** The lazily matched title group when it starts at `w`. */
  function TitleGroup(s: string, w: nat): string
    requires w < |s|
  {
    s[w..TitleEnd(s, w + 1)]
  }

  /** The clean-up of a fallback title: strip, cut at a venue, drop trailing dots,
      and keep it only when it is longer than ten characters. */
  function CleanTitle(g: string): (r: Option<string>)
    ensures r.Some? ==> |r.value| > 10 && r.value[|r.value| - 1] != '.'
  {
    var t := RStripChars(CutAtVenue(Strip(g)), {'.'});
    if |t| > 10 then Some(t) else None
  }

  /** `\(\d{4}\)\s*(.+?)(?:terminators)` after the first `(dddd)`. The group starts
      after the whitespace following the year and ends at the first place a
      terminator matches; `\s*$` guarantees one at the end of the text. When nothing
      but whitespace follows the year the group can only be one whitespace character,
      which stripping empties, so no title results. */
  function TitleAfterYear(s: string): (r: Option<string>)
    ensures r.Some? ==> |r.value| > 10 && r.value[|r.value| - 1] != '.'
    ensures (forall k: nat :: !YearParenAt(s, k)) ==> r.None?
  {
    match FirstYearParen(s)
    case None => None
    case Some(p) => TitleFrom(s, SkipSpaces(s, p + 6))
  }

  /** The cleaned title group starting at `w`, none when the text ends there. */
  function TitleFrom(s: string, w: nat): (r: Option<string>)
    requires w <= |s|
    ensures r.Some? ==> |r.value| > 10 && r.value[|r.value| - 1] != '.'
  {
    if w == |s| then None else CleanTitle(TitleGroup(s, w))
  }

  /** The title: the first suitable bold span, else the text after the year. */
  function Title(s: string): (r: Option<string>)
    ensures r.Some? ==> |r.value| >= 10
    ensures (exists k :: 0 <= k < |BoldSpans(s, 0)| && TitleCandidate(Strip(BoldSpans(s, 0)[k])))
            ==> r == FirstTitle(BoldSpans(s, 0))
    ensures (forall k :: 0 <= k < |BoldSpans(s, 0)| ==> !TitleCandidate(Strip(BoldSpans(s, 0)[k])))
            ==> r == TitleAfterYear(s)
  {
    match FirstTitle(BoldSpans(s, 0))
    case Some(t) => Some(t)
    case None => TitleAfterYear(s)
  }

  // ---------------------------------------------------------------------------
  // Journal

  /** `\*([^*]+)\*(?!\*)` at `p`, as the source writes it: the text between a star
      and the next star, when that star is not doubled. */
  function ItalicAsWrittenAt(s: string, p: nat): (r: Option<string>)
    ensures r.Some? ==> '*' !in r.value && r.value != []
  {
    if p >= |s| || s[p] != '*' then None
    else
      var e := SkipNotIn(s, p + 1, {'*'});
      if e == p + 1 || e == |s| || (e + 1 < |s| && s[e + 1] == '*') then None
      else
        var j := s[p + 1..e];
        assert forall k :: 0 <= k < |j| ==> j[k] == s[p + 1 + k];
        Some(j)
  }

  /** Where the source's italic pattern first matches. */
  function FirstItalicAsWritten(s: string): (r: Option<nat>)
    ensures r.Some? ==> ItalicAsWrittenAt(s, r.value).Some?
    ensures r.Some? ==> forall k :: 0 <= k < r.value ==> ItalicAsWrittenAt(s, k).None?
    ensures r.None? ==> forall k :: 0 <= k <= |s| ==> ItalicAsWrittenAt(s, k).None?
  {
    var P := (p: nat) => ItalicAsWrittenAt(s, p).Some?;
    assert forall k: nat :: P(k) == ItalicAsWrittenAt(s, k).Some?;
    FindFirst(P, 0, |s|)
  }

  /** The journal as the source extracts it: the first such span, stripped, unless
      it starts with `http`. */
  function JournalAsWritten(s: string): (r: Option<string>)
    ensures r.Some? ==> !StartsWith(r.value, "http") && '*' !in r.value
  {
    match FirstItalicAsWritten(s)
    case Some(p) =>
      var j := Strip(ItalicAsWrittenAt(s, p).value);
      if StartsWith(j, "http") then None else Some(j)
    case None => None
  }

  /** `(?<!\*)\*([^*]+)\*(?!\*)` at `p`: an italic span whose opening star is not the
      end of a bold marker either. */
  function ItalicAt(s: string, p: nat): (r: Option<string>)
    ensures r.Some? ==> '*' !in r.value && r.value != []
    ensures r.Some? ==> r == ItalicAsWrittenAt(s, p)
  {
    if p > 0 && p - 1 < |s| && s[p - 1] == '*' then None else ItalicAsWrittenAt(s, p)
  }

  /** Where the corrected italic pattern first matches. */
  function FirstItalic(s: string): (r: Option<nat>)
    ensures r.Some? ==> ItalicAt(s, r.value).Some?
    ensures r.Some? ==> forall k :: 0 <= k < r.value ==> ItalicAt(s, k).None?
    ensures r.None? ==> forall k :: 0 <= k <= |s| ==> ItalicAt(s, k).None?
  {
    var P := (p: nat) => ItalicAt(s, p).Some?;
    assert forall k: nat :: P(k) == ItalicAt(s, k).Some?;
    FindFirst(P, 0, |s|)
  }

  /** The journal: the first single-starred span, stripped, unless it starts with `http`. */
  function Journal(s: string): (r: Option<string>)
    ensures r.Some? ==> !StartsWith(r.value, "http") && '*' !in r.value
  {
    match FirstItalic(s)
    case Some(p) =>
      var j := Strip(ItalicAt(s, p).value);
      if StartsWith(j, "http") then None else Some(j)
    case None => None
  }

  // ---------------------------------------------------------------------------
  // Authors

  /** `\s*\(\d{4}\)` matches at `e`. */
  predicate YearAfterSpacesAt(s: string, e: nat) {
    e <= |s| && YearParenAt(s, SkipSpaces(s, e))
  }

  /** `^(.+?)\s*\(\d{4}\)`: the shortest non-empty prefix that is followed, after
      optional whitespace, by a year in parentheses; stripped. */
  function Authors(s: string): (r: Option<string>)
    ensures r.Some? ==> exists e :: 1 <= e <= |s| && r.value == Strip(s[..e]) && YearAfterSpacesAt(s, e)
                                   && (forall k :: 1 <= k < e ==> !YearParenAt(s, k))
    ensures r.None? <==> forall e :: 1 <= e <= |s| ==> !YearAfterSpacesAt(s, e)
  {
    var P := (e: nat) => YearAfterSpacesAt(s, e);
    assert forall k: nat :: P(k) == YearAfterSpacesAt(s, k);
    match FindFirst(P, 1, |s|)
    case Some(e) =>
      assert forall k :: 1 <= k < e && YearParenAt(s, k) ==> YearAfterSpacesAt(s, k);
      Some(Strip(s[..e]))
    case None => None
  }

  // ---------------------------------------------------------------------------
  // Volume, issue and pages

  datatype VolumeInfo = VolumeInfo(volume: string, issue: string, pages: string)

  /** A character of a page range: `-` or an en dash. */
  predicate IsRangeDash(c: char) {
    c == '-' || c == '\U{2013}'
  }

  /** `\d+[-–]\d+|\w+` at `c`: where the pages group ends. The digit runs are
      maximal, because a shorter run would leave a digit where a dash must be. */
  function PagesEnd(s: string, c: nat): (r: Option<nat>)
    requires c <= |s|
    ensures r.Some? ==> c < r.value <= |s|
  {
    var d := SkipDigits(s, c);
    if d > c && d < |s| && IsRangeDash(s[d]) && SkipDigits(s, d + 1) > d + 1 then Some(SkipDigits(s, d + 1))
    else
      var w := SkipWordChars(s, c);
      if w > c then Some(w) else None
  }

  /** `(\d+)\s*\((\d+)\)\s*:\s*(pages)` at `p`. */
  function VolumeAt(s: string, p: nat): (r: Option<VolumeInfo>)
    ensures r.Some? ==> r.value.volume != [] && AllDigits(r.value.volume)
    ensures r.Some? ==> r.value.issue != [] && AllDigits(r.value.issue)
    ensures r.Some? ==> r.value.pages != []
  {
    if p > |s| then None
    else
      var d1 := SkipDigits(s, p);
      var a := SkipSpaces(s, d1);
      if d1 == p || a == |s| || s[a] != '(' then None
      else
        var d2 := SkipDigits(s, a + 1);
        if d2 == a + 1 || d2 == |s| || s[d2] != ')' then None
        else
          var b := SkipSpaces(s, d2 + 1);
          if b == |s| || s[b] != ':' then None
          else
            match PagesEnd(s, SkipSpaces(s, b + 1))
            case Some(e) =>
              var c := SkipSpaces(s, b + 1);
              var vol, iss := s[p..d1], s[a + 1..d2];
              assert forall k :: 0 <= k < |vol| ==> vol[k] == s[p + k];
              assert forall k :: 0 <= k < |iss| ==> iss[k] == s[a + 1 + k];
              Some(VolumeInfo(vol, iss, s[c..e]))
            case None => None
  }

  /** The first volume/issue/pages triple in the entry. */
  function Volume(s: string): (r: Option<VolumeInfo>)
    ensures r.Some? ==> exists p: nat :: p <= |s| && VolumeAt(s, p) == r
                                   && forall q: nat :: q < p ==> VolumeAt(s, q).None?
    ensures r.None? ==> forall p: nat :: p <= |s| ==> VolumeAt(s, p).None?
  {
    var P := (p: nat) => VolumeAt(s, p).Some?;
    assert forall k: nat :: P(k) == VolumeAt(s, k).Some?;
    match FindFirst(P, 0, |s|)
    case Some(p) => VolumeAt(s, p)
    case None => None
  }

  // ---------------------------------------------------------------------------
  // The whole entry

  /** `parse_entry`: every field the source extracts, or the failure of
      `int(section)`. The DOI comes from the link URL when that yields one and from
      the text otherwise. */
  function ParseEntry(entryNum: nat, content: string, section: Option<string>): (r: Result<Publication, ParseError>)
    requires '\n' !in content
    ensures r.Failure? <==> YearFromSection(section) && !AllDigits(section.value)
  {
    match EntryYear(section, content)
    case Failure(err) => Failure(err)
    case Success(year) =>
      var url := LinkUrl(content);
      var urlDoi := if url.Some? then ExtractDoiFromUrl(url.value) else None;
      var doi := if urlDoi.Some? then urlDoi else DoiInText(content);
      var vol := Volume(content);
      Success(Publication(
        entryNum, section, content,
        Authors(content), year, Title(content), Journal(content), doi, url,
        if vol.Some? then Some(vol.value.volume) else None,
        if vol.Some? then Some(vol.value.issue) else None,
        if vol.Some? then Some(vol.value.pages) else None,
        false, [], None, None, None, false))
  }

  /** What a parsed entry holds: the entry's own number, text and section; the year
      of a numeric section, else the first parenthesised year of the text; the link;
      the DOI of the link when it has one, else the DOI written in the text, of DOI
      shape either way; the authors, title and journal their patterns find; the
      volume, issue and pages of the first volume match; and none of the fields the
      later phases fill in. */
  lemma ParseEntryFields(entryNum: nat, content: string, section: Option<string>)
    requires '\n' !in content
    requires ParseEntry(entryNum, content, section).Success?
    ensures var p := ParseEntry(entryNum, content, section).value;
      && p.entryNum == entryNum && p.rawContent == content && p.section == section
      && (YearFromSection(section) ==> p.year == Some(DigitsToNat(section.value)))
      && (!YearFromSection(section) ==> p.year == YearInText(content))
      && p.url == LinkUrl(content)
      && (p.url.Some? && ExtractDoiFromUrl(p.url.value).Some? ==> p.doi == ExtractDoiFromUrl(p.url.value))
      && (p.url.None? || ExtractDoiFromUrl(p.url.value).None? ==> p.doi == DoiInText(content))
      && (p.doi.Some? ==> LooksLikeDoi(p.doi.value))
      && p.authors == Authors(content) && p.title == Title(content) && p.journal == Journal(content)
      && (p.title.Some? ==> |p.title.value| >= 10)
      && (p.journal.Some? ==> !StartsWith(p.journal.value, "http"))
      && (Volume(content).None? ==> p.volume.None? && p.issue.None? && p.pages.None?)
      && (Volume(content).Some? ==>
            && p.volume == Some(Volume(content).value.volume)
            && p.issue == Some(Volume(content).value.issue)
            && p.pages == Some(Volume(content).value.pages))
      && !p.needsReview && p.candidates == [] && p.openalex.None?
      && p.confidence.None? && p.matchMethod.None? && !p.preprintNowPublished
  {
  }

  // ---------------------------------------------------------------------------
  // First-author surname

  /** `,|\s+and\s+` matches at `p`. */
  predicate AuthorSeparatorAt(a: string, p: nat) {
    p < |a|
    && (a[p] == ','
        || (IsSpace(a[p])
            && var f := SkipSpaces(a, p);
            OccursAt(a, "and", f) && f + 3 < |a| && IsSpace(a[f + 3])))
  }

  /** `re.split(r',|\s+and\s+', a)[0]`: the text before the first separator. */
  function FirstAuthor(a: string): (r: string)
    ensures |r| <= |a| && r == a[..|r|]
    ensures forall p :: 0 <= p < |r| ==> !AuthorSeparatorAt(a, p)
    ensures |r| < |a| ==> AuthorSeparatorAt(a, |r|)
  {
    var P := (p: nat) => AuthorSeparatorAt(a, p);
    assert forall k: nat :: P(k) == AuthorSeparatorAt(a, k);
    match FindFirst(P, 0, |a|)
    case Some(p) => a[..p]
    case None => a
  }

  /** `re.sub(r'\*\*([^*]+)\*\*', r'\1', s)` from position `i`: every bold span,
      scanned left to right, replaced by its text. */
  function Unbold(s: string, i: nat): (r: string)
    requires i <= |s|
    decreases |s| - i
  {
    if i == |s| then []
    else
      match BoldEnd(s, i)
      case Some(e) => s[i + 2..e - 2] + Unbold(s, e)
      case None => [s[i]] + Unbold(s, i + 1)
  }

  /** A character of `[a-zA-Z\-\']`. */
  predicate IsSurnameChar(c: char) {
    IsLetter(c) || c == '-' || c == '\''
  }

  function SkipSurnameChars(s: string, i: nat): (j: nat)
    requires i <= |s|
    decreases |s| - i
    ensures i <= j <= |s|
    ensures forall k :: i <= k < j ==> IsSurnameChar(s[k])
    ensures j < |s| ==> !IsSurnameChar(s[j])
  {
    if i == |s| || !IsSurnameChar(s[i]) then i else SkipSurnameChars(s, i + 1)
  }

  /** The shape `^[A-Z][a-zA-Z\-\']+` of a surname. */
  predicate IsSurname(w: string) {
    |w| >= 2 && IsUpper(w[0]) && forall k :: 1 <= k < |w| ==> IsSurnameChar(w[k])
  }

  /** `re.match(r'^([A-Z][a-zA-Z\-\']+)', f)`: the longest surname-shaped prefix. */
  function LeadingSurname(f: string): (r: Option<string>)
    ensures r.Some? ==> IsSurname(r.value) && StartsWith(f, r.value)
    ensures r.Some? ==> |r.value| == |f| || !IsSurnameChar(f[|r.value|])
    ensures r.None? <==> |f| < 2 || !IsUpper(f[0]) || !IsSurnameChar(f[1])
  {
    if |f| == 0 || !IsUpper(f[0]) then None
    else
      var e := SkipSurnameChars(f, 1);
      if e == 1 then None else Some(f[..e])
  }

  /** `extract_first_author_surname`: strip, drop leading stars, keep the text before
      the first separator, strip it, unbold it, and take its leading surname. */
  function FirstAuthorSurname(authors: Option<string>): (r: Option<string>)
    ensures !Truthy(authors) ==> r.None?
    ensures r.Some? ==> IsSurname(r.value)
  {
    if !Truthy(authors) then None
    else
      var a0 := Strip(authors.value);
      var a := a0[SkipIn(a0, 0, {'*'})..];
      LeadingSurname(Unbold(Strip(FirstAuthor(a)), 0))
  }

  /** Unbolding copies a character other than a star. */
  lemma UnboldStep(s: string, i: nat)
    requires i < |s| && s[i] != '*'
    ensures Unbold(s, i) == [s[i]] + Unbold(s, i + 1)
  {
    assert !OccursAt(s, "**", i) by {
      assert i + 2 > |s| || s[i..i + 2][0] == s[i];
    }
  }

  /** Unbolding copies a star-free stretch unchanged. */
  lemma {:induction false} UnboldCopies(s: string, i: nat, j: nat)
    requires i <= j <= |s|
    requires forall k :: i <= k < j ==> s[k] != '*'
    ensures Unbold(s, i) == s[i..j] + Unbold(s, j)
    decreases j - i
  {
    if i < j {
      UnboldStep(s, i);
      UnboldCopies(s, i + 1, j);
      SliceCons(s, i, j);
      AppendAssociative([s[i]], s[i + 1..j], Unbold(s, j));
    }
  }

  /** Stripping keeps a leading stretch that starts and ends with non-whitespace. */
  lemma StripKeepsLead(x: string, n: nat)
    requires 1 <= n <= |x| && !IsSpace(x[0]) && !IsSpace(x[n - 1])
    ensures n <= |Strip(x)| && Strip(x) == x[..|Strip(x)|]
  {
    assert SkipSpaces(x, 0) == 0;
    assert x[0..] == x;
  }

  /** The first author's text reaches at least to the end of a leading surname,
      which holds neither a comma nor whitespace. */
  lemma FirstAuthorKeepsName(a: string, name: string)
    requires IsSurname(name) && |name| <= |a| && a[..|name|] == name
    ensures |name| <= |FirstAuthor(a)|
  {
    assert forall k :: 0 <= k < |name| ==> a[k] == name[k];
  }

  /** Unbolding a text that opens with a surname followed by a comma, a space or
      nothing keeps the surname, and what follows it does not extend it. */
  lemma UnboldKeepsName(f: string, name: string)
    requires IsSurname(name) && |name| <= |f| && f[..|name|] == name
    requires |name| == |f| || f[|name|] == ',' || f[|name|] == ' '
    ensures var u := Unbold(f, 0);
      |name| <= |u| && u[..|name|] == name && (|name| < |u| ==> !IsSurnameChar(u[|name|]))
  {
    var n := |name|;
    assert forall k :: 0 <= k < n ==> f[k] != '*' by {
      assert forall k :: 0 <= k < n ==> f[k] == name[k];
    }
    UnboldCopies(f, 0, n);
    if n < |f| {
      UnboldStep(f, n);
    }
  }

  /** The surname of a first author that is a surname followed by a comma, a space
      or nothing. */
  lemma LeadingSurnameOfName(f: string, name: string)
    requires IsSurname(name) && |name| <= |f| && f[..|name|] == name
    requires |name| == |f| || f[|name|] == ',' || f[|name|] == ' '
    ensures LeadingSurname(Unbold(f, 0)) == Some(name)
  {
    var n := |name|;
    var u := Unbold(f, 0);
    UnboldKeepsName(f, name);
    assert forall k :: 1 <= k < n ==> IsSurnameChar(u[k]) by {
      assert forall k :: 0 <= k < n ==> u[k] == name[k];
    }
    SurnameRunEnds(u, 1, n);
  }

  /** An author list that begins with a surname followed by a comma, a space or
      nothing yields that surname, e.g. `Atkins KE, Smith J` gives `Atkins`. */
  lemma SurnameOfLeadingName(name: string, rest: string)
    requires IsSurname(name) && (rest == [] || rest[0] == ',' || rest[0] == ' ')
    ensures FirstAuthorSurname(Some(name + rest)) == Some(name)
  {
    var x := name + rest;
    var n := |name|;
    assert x[..n] == name;
    StripKeepsLead(x, n);
    var a0 := Strip(x);
    assert a0[..n] == name;
    assert SkipIn(a0, 0, {'*'}) == 0;
    assert a0[0..] == a0;
    FirstAuthorKeepsName(a0, name);
    var cut := FirstAuthor(a0);
    assert cut[..n] == name;
    StripKeepsLead(cut, n);
    var f := Strip(cut);
    assert f[..n] == name;
    if n < |f| {
      assert f[n] == x[n] == rest[0];
    }
    LeadingSurnameOfName(f, name);
  }

  lemma SurnameRunEnds(s: string, i: nat, j: nat)
    requires i <= j <= |s|
    requires forall k :: i <= k < j ==> IsSurnameChar(s[k])
    requires j < |s| ==> !IsSurnameChar(s[j])
    ensures SkipSurnameChars(s, i) == j
    decreases j - i
  {
    if i < j {
      SurnameRunEnds(s, i + 1, j);
    }
  }

  // ---------------------------------------------------------------------------
  // The journal after a bold title

  /** An entry whose bold title is followed by a space and an italic journal:
      `a **t** *j*` then `rest`, with no stars inside `a`, `t` and `j`. */
  function BoldThenItalic(a: string, t: string, j: string, rest: string): string {
    a + "**" + t + "** *" + j + "*" + rest
  }

  predicate BoldThenItalicShape(a: string, t: string, j: string, rest: string) {
    '*' !in a && '*' !in t && '*' !in j && t != [] && j != [] && (rest == [] || rest[0] != '*')
  }

  /** The characters of `BoldThenItalic`, position by position. */
  lemma BoldThenItalicChars(a: string, t: string, j: string, rest: string)
    requires BoldThenItalicShape(a, t, j, rest)
    ensures var s := BoldThenItalic(a, t, j, rest); var m := |a| + 2 + |t|;
      && |s| == m + 5 + |j| + |rest|
      && (forall k :: 0 <= k < |a| ==> s[k] == a[k] && s[k] != '*')
      && s[|a|] == '*' && s[|a| + 1] == '*'
      && (forall k :: |a| + 2 <= k < m ==> s[k] == t[k - |a| - 2] && s[k] != '*')
      && s[m] == '*' && s[m + 1] == '*' && s[m + 2] == ' ' && s[m + 3] == '*'
      && (forall k :: m + 4 <= k < m + 4 + |j| ==> s[k] == j[k - m - 4] && s[k] != '*')
      && s[m + 4 + |j|] == '*'
      && s[m + 4..m + 4 + |j|] == j
      && (m + 5 + |j| < |s| ==> s[m + 5 + |j|] != '*')
  {
    var s := BoldThenItalic(a, t, j, rest);
    var m := |a| + 2 + |t|;
    assert s == a + "**" + t + "** *" + j + "*" + rest;
    assert forall k :: 0 <= k < |j| ==> j[k] != '*';
    assert forall k :: 0 <= k < |t| ==> t[k] != '*';
    assert forall k :: 0 <= k < |a| ==> a[k] != '*';
    if m + 5 + |j| < |s| {
      assert s[m + 5 + |j|] == rest[0];
    }
  }

  /** No star before the one that closes the bold title opens a span the source's
      italic pattern matches: each is doubled or the title holds no star. */
  lemma EarlyStarsOpenNoItalic(a: string, t: string, j: string, rest: string)
    requires BoldThenItalicShape(a, t, j, rest)
    ensures var s := BoldThenItalic(a, t, j, rest);
      forall k :: 0 <= k < |a| + 3 + |t| ==> ItalicAsWrittenAt(s, k).None?
  {
    var s := BoldThenItalic(a, t, j, rest);
    var m := |a| + 2 + |t|;
    BoldThenItalicChars(a, t, j, rest);
    assert SkipNotIn(s, |a| + 2, {'*'}) == m by {
      SkipNotInStopsAt(s, |a| + 2, m, {'*'});
    }
    forall k | 0 <= k < m + 1 ensures ItalicAsWrittenAt(s, k).None? {
      if k == |a| + 1 {
        assert s[m + 1] == '*';
      }
    }
  }

  /** The source's italic pattern first matches at `p` when it matches there and
      nowhere before. */
  lemma FirstItalicAsWrittenIs(s: string, p: nat)
    requires p <= |s| && ItalicAsWrittenAt(s, p).Some?
    requires forall k :: 0 <= k < p ==> ItalicAsWrittenAt(s, k).None?
    ensures FirstItalicAsWritten(s) == Some(p)
  {
  }

  /** The corrected pattern first matches at `p` when it matches there and nowhere
      before. */
  lemma FirstItalicIs(s: string, p: nat)
    requires p <= |s| && ItalicAt(s, p).Some?
    requires forall k :: 0 <= k < p ==> ItalicAt(s, k).None?
    ensures FirstItalic(s) == Some(p)
  {
  }

  /** The source's journal is the first span it matches, stripped. */
  lemma JournalAsWrittenOfFirst(s: string, p: nat, span: string)
    requires FirstItalicAsWritten(s) == Some(p) && ItalicAsWrittenAt(s, p) == Some(span)
    ensures JournalAsWritten(s) == if StartsWith(Strip(span), "http") then None else Some(Strip(span))
  {
  }

  /** The corrected journal is the first span the corrected pattern matches, stripped. */
  lemma JournalOfFirst(s: string, p: nat, span: string)
    requires FirstItalic(s) == Some(p) && ItalicAt(s, p) == Some(span)
    ensures Journal(s) == if StartsWith(Strip(span), "http") then None else Some(Strip(span))
  {
  }

  /** The source's italic pattern matches the lone space after the bold title. */
  lemma SpaceIsItalicAsWritten(a: string, t: string, j: string, rest: string)
    requires BoldThenItalicShape(a, t, j, rest)
    ensures ItalicAsWrittenAt(BoldThenItalic(a, t, j, rest), |a| + 3 + |t|) == Some(" ")
  {
    var s := BoldThenItalic(a, t, j, rest);
    var m := |a| + 2 + |t|;
    BoldThenItalicChars(a, t, j, rest);
    SkipNotInStopsAt(s, m + 2, m + 3, {'*'});
    assert s[m + 2..m + 3] == " ";
  }

  /** The corrected pattern matches the journal's own span. */
  lemma JournalIsItalic(a: string, t: string, j: string, rest: string)
    requires BoldThenItalicShape(a, t, j, rest)
    ensures ItalicAt(BoldThenItalic(a, t, j, rest), |a| + 5 + |t|) == Some(j)
  {
    var s := BoldThenItalic(a, t, j, rest);
    var m := |a| + 2 + |t|;
    BoldThenItalicChars(a, t, j, rest);
    SkipNotInStopsAt(s, m + 4, m + 4 + |j|, {'*'});
  }

  /** The corrected pattern matches nowhere before the journal's opening star: the
      two stars in between are the bold marker's end and a space. */
  lemma NoItalicBeforeJournal(a: string, t: string, j: string, rest: string)
    requires BoldThenItalicShape(a, t, j, rest)
    ensures var s := BoldThenItalic(a, t, j, rest);
      forall k :: 0 <= k < |a| + 5 + |t| ==> ItalicAt(s, k).None?
  {
    var s := BoldThenItalic(a, t, j, rest);
    var m := |a| + 2 + |t|;
    BoldThenItalicChars(a, t, j, rest);
    EarlyStarsOpenNoItalic(a, t, j, rest);
    assert s[m + 1] == '*' && s[m + 2] == ' ';
  }

  /** As written, the italic pattern first matches the lone space between the bold
      title's closing `**` and the journal's opening `*`, so the journal comes out
      empty, which every later use treats as no journal. */
  lemma BoldThenItalicLosesJournal(a: string, t: string, j: string, rest: string)
    requires BoldThenItalicShape(a, t, j, rest)
    ensures JournalAsWritten(BoldThenItalic(a, t, j, rest)) == Some("")
  {
    var s := BoldThenItalic(a, t, j, rest);
    var p := |a| + 3 + |t|;
    SpaceIsItalicAsWritten(a, t, j, rest);
    EarlyStarsOpenNoItalic(a, t, j, rest);
    FirstItalicAsWrittenIs(s, p);
    JournalAsWrittenOfFirst(s, p, " ");
    StripBlank();
  }

  /** With the opening star required not to follow another star, the same entry
      yields the journal's own text. */
  lemma BoldThenItalicKeepsJournal(a: string, t: string, j: string, rest: string)
    requires BoldThenItalicShape(a, t, j, rest)
    requires !StartsWith(Strip(j), "http")
    ensures Journal(BoldThenItalic(a, t, j, rest)) == Some(Strip(j))
  {
    var s := BoldThenItalic(a, t, j, rest);
    var p := |a| + 5 + |t|;
    JournalIsItalic(a, t, j, rest);
    NoItalicBeforeJournal(a, t, j, rest);
    FirstItalicIs(s, p);
    JournalOfFirst(s, p, j);
  }

  /** A lone space strips to nothing. */
  lemma StripBlank()
    ensures Strip(" ") == ""
  {
    assert SkipSpaces(" ", 0) == 1;
  }
}
