/**
 The publications page built from CSL-JSON items.

 Every item is numbered by the entry number its note carries. Items without one
 get fresh numbers after the largest number seen, in input order. Items with a
 year are filed under it. The page lists the years newest first, and within a
 year the entries by decreasing number. Each entry is a header line (number,
 authors, year), a title line with the journal details, an optional DOI line
 and an optional line with the citation count and an open-access link.
 */
module PapersPage {
  import opened Text
  import opened Records
  import opened Csl
  import opened Grouping

  // ---------------------------------------------------------------------------
  // Reading an item

  /** The number of a note `Original entry:`, optional whitespace, `[`, digits
      and `]`, starting at `p`. */
  function NoteAt(s: string, p: nat): (r: Option<nat>)
    ensures r.Some? ==> OccursAt(s, "Original entry:", p)
  {
    if !OccursAt(s, "Original entry:", p) then None
    else
      var q := SkipSpaces(s, p + 15);
      if q == |s| || s[q] != '[' then None
      else
        var d := SkipDigits(s, q + 1);
        if d == q + 1 || d == |s| || s[d] != ']' then None
        else Some(DigitsToNat(s[q + 1..d]))
  }

  /** The number of the leftmost note at or after `p`. */
  function NoteSearch(s: string, p: nat): Option<nat>
    decreases |s| + 1 - p
  {
    if p > |s| then None
    else if NoteAt(s, p).Some? then NoteAt(s, p)
    else NoteSearch(s, p + 1)
  }

  /** `extract_entry_number`: the number of the leftmost such note in `note`,
      the missing note read as empty. */
  function ExtractEntryNumber(item: CslItem): Option<nat> {
    NoteSearch(OrElse(item.note, ""), 0)
  }

  /** The search finds nothing exactly when no position from `p` on starts a note. */
  lemma {:induction false} NoteSearchNone(s: string, p: nat)
    ensures NoteSearch(s, p).None? <==> forall i: nat :: p <= i <= |s| ==> NoteAt(s, i).None?
    decreases |s| + 1 - p
  {
    if p <= |s| && NoteAt(s, p).None? {
      NoteSearchNone(s, p + 1);
    }
  }

  /** What the search finds is the number of a note at some position from `p` on,
      with no note starting before it. */
  lemma {:induction false} NoteSearchSome(s: string, p: nat)
    requires NoteSearch(s, p).Some?
    ensures exists i: nat :: p <= i <= |s| && NoteAt(s, i) == NoteSearch(s, p)
                             && forall q: nat :: p <= q < i ==> NoteAt(s, q).None?
    decreases |s| + 1 - p
  {
    if NoteAt(s, p).None? {
      NoteSearchSome(s, p + 1);
      var i: nat :| p + 1 <= i <= |s| && NoteAt(s, i) == NoteSearch(s, p + 1)
                    && forall q: nat :: p + 1 <= q < i ==> NoteAt(s, q).None?;
      assert forall q: nat :: p <= q < i ==> NoteAt(s, q).None?;
    } else {
      assert NoteAt(s, p) == NoteSearch(s, p);
    }
  }

  /** The number read is that of the leftmost note, and there is none exactly when
      no position starts a note. */
  lemma ExtractLeftmost(item: CslItem)
    ensures var s := OrElse(item.note, "");
      var r := ExtractEntryNumber(item);
      && (r.Some? ==> exists p: nat :: p <= |s| && NoteAt(s, p) == r && forall q: nat :: q < p ==> NoteAt(s, q).None?)
      && (r.None? <==> forall p: nat :: p <= |s| ==> NoteAt(s, p).None?)
  {
    var s := OrElse(item.note, "");
    NoteSearchNone(s, 0);
    if NoteSearch(s, 0).Some? {
      NoteSearchSome(s, 0);
    }
  }

  /** The note written for an entry reads back as its number. */
  lemma EntryNoteReadsBack(n: nat)
    ensures NoteAt(EntryNote(n), 0) == Some(n)
  {
    var s := EntryNote(n);
    var digits := NatToString(n);
    assert s == "Original entry: [" + digits + "]";
    assert s[..15] == "Original entry:";
    assert s[15] == ' ' && s[16] == '[';
    assert SkipSpaces(s, 15) == 16;
    assert s[17..17 + |digits|] == digits;
    assert s[17 + |digits|] == ']';
    assert forall k :: 17 <= k < 17 + |digits| ==> IsDigit(s[k]) by {
      forall k | 17 <= k < 17 + |digits| ensures IsDigit(s[k]) {
        assert s[k] == digits[k - 17];
      }
    }
    assert SkipDigits(s, 17) == 17 + |digits|;
    NatToStringRoundTrip(n);
  }

  /** Items made by phase 2 give back the number of the entry they were made from. */
  lemma CslItemNumberReadsBack(pub: Publication)
    requires Identifiable(pub)
    ensures ExtractEntryNumber(CslItemOf(pub)) == Some(pub.entryNum)
  {
    var item := CslItemOf(pub);
    EntryNoteReadsBack(pub.entryNum);
    assert OrElse(item.note, "") == EntryNote(pub.entryNum);
  }

  /** `get_year`: the first number of the first date, when there is one. */
  function GetYear(item: CslItem): (r: Option<int>)
    ensures r.Some? ==> |item.dateParts| > 0 && |item.dateParts[0]| > 0 && r == item.dateParts[0][0]
    ensures (|item.dateParts| == 0 || |item.dateParts[0]| == 0) ==> r.None?
  {
    if |item.dateParts| > 0 && |item.dateParts[0]| > 0 then item.dateParts[0][0] else None
  }

  /** A year Python reads as true: present and not zero. */
  predicate HasYear(y: Option<int>) { y.Some? && y.value != 0 }

  /** Items made by phase 2 carry the year of the work, or else the entry's. */
  lemma CslItemYear(pub: Publication)
    requires Identifiable(pub)
    ensures GetYear(CslItemOf(pub)) ==
      if YearTruthy(Meta(pub).publicationYear) then Meta(pub).publicationYear
      else if pub.year.Some? then Some(pub.year.value as int) else None
  {
  }

  // ---------------------------------------------------------------------------
  // Authors

  /** `format_author_name`: the literal name, else `given family`, else whichever
      part there is, else `Unknown`. */
  function FormatAuthorName(a: CslName): string {
    if a.literal.Some? then a.literal.value
    else
      var given := OrElse(a.given, "");
      var family := OrElse(a.family, "");
      if given != "" && family != "" then given + " " + family
      else if family != "" then family
      else if given != "" then given
      else "Unknown"
  }

  lemma AuthorNameParts(a: CslName)
    requires a.literal.None?
    ensures Truthy(a.given) && Truthy(a.family) ==> FormatAuthorName(a) == a.given.value + " " + a.family.value
    ensures !Truthy(a.given) && Truthy(a.family) ==> FormatAuthorName(a) == a.family.value
    ensures Truthy(a.given) && !Truthy(a.family) ==> FormatAuthorName(a) == a.given.value
    ensures !Truthy(a.given) && !Truthy(a.family) ==> FormatAuthorName(a) == "Unknown"
  {
  }

  /** The author's family name matches the highlighted surname, ignoring case. */
  predicate Highlighted(a: CslName, highlight: string) {
    highlight != "" && EqualsIgnoreCase(highlight, OrElse(a.family, ""))
  }

  /** One author as listed: bold when highlighted. */
  function AuthorLabel(a: CslName, highlight: string): string {
    var name := FormatAuthorName(a);
    if Highlighted(a, highlight) then "**" + name + "**" else name
  }

  function Labels(authors: seq<CslName>, highlight: string): (r: seq<string>)
    ensures |r| == |authors|
    ensures forall k :: 0 <= k < |r| ==> r[k] == AuthorLabel(authors[k], highlight)
  {
    seq(|authors|, k requires 0 <= k < |authors| => AuthorLabel(authors[k], highlight))
  }

  /** Where Python's `xs[:m]` stops in a list of length `n`. */
  function SliceStop(m: int, n: nat): (r: nat)
    ensures r <= n
  {
    if m >= n then n else if m >= 0 then m else if n + m >= 0 then n + m else 0
  }

  /** The truncation: with a non-zero limit exceeded, the first names up to the
      limit and `et al.`. */
  function Truncate(names: seq<string>, maxAuthors: Option<int>): seq<string> {
    if maxAuthors.Some? && maxAuthors.value != 0 && |names| > maxAuthors.value
    then names[..SliceStop(maxAuthors.value, |names|)] + ["et al."]
    else names
  }

  /** What `format_authors` returns. */
  function AuthorsText(authors: seq<CslName>, highlight: string, maxAuthors: Option<int>): string {
    if authors == [] then "Unknown authors" else Join(", ", Truncate(Labels(authors, highlight), maxAuthors))
  }

  /** `format_authors`: the loop that labels each author, then the truncation. */
  method FormatAuthors(authors: seq<CslName>, highlight: string, maxAuthors: Option<int>) returns (s: string)
    ensures s == AuthorsText(authors, highlight, maxAuthors)
  {
    if authors == [] {
      return "Unknown authors";
    }
    var formatted: seq<string> := [];
    for i := 0 to |authors|
      invariant |formatted| == i
      invariant forall k :: 0 <= k < i ==> formatted[k] == AuthorLabel(authors[k], highlight)
    {
      var name := FormatAuthorName(authors[i]);
      var family := OrElse(authors[i].family, "");
      if highlight != "" && Lower(highlight) == Lower(family) {
        name := "**" + name + "**";
      }
      formatted := formatted + [name];
    }
    assert formatted == Labels(authors, highlight);
    if maxAuthors.Some? && maxAuthors.value != 0 && |formatted| > maxAuthors.value {
      formatted := formatted[..SliceStop(maxAuthors.value, |formatted|)] + ["et al."];
    }
    s := Join(", ", formatted);
  }

  /** The surname is matched whole: a family name of another length, such as a
      longer name the highlighted one is a prefix of, is never bold. */
  lemma WholeSurnameOnly(a: CslName, highlight: string)
    requires |OrElse(a.family, "")| != |highlight|
    ensures AuthorLabel(a, highlight) == FormatAuthorName(a)
  {
    var family := OrElse(a.family, "");
    assert |Lower(family)| != |Lower(highlight)|;
  }

  /** The family name is bold exactly when it equals the highlighted surname up to
      case, and never when no surname is highlighted. */
  lemma HighlightIgnoresCase(a: CslName, highlight: string)
    ensures Highlighted(a, highlight) <==> highlight != "" && Lower(highlight) == Lower(OrElse(a.family, ""))
    ensures Highlighted(a, highlight) ==> AuthorLabel(a, highlight) == "**" + FormatAuthorName(a) + "**"
    ensures !Highlighted(a, highlight) ==> AuthorLabel(a, highlight) == FormatAuthorName(a)
  {
  }

  /** A positive limit that is exceeded keeps exactly that many names, in order,
      followed by `et al.`; a missing or zero limit, or one not exceeded, keeps them all. */
  lemma TruncateKeepsLimit(names: seq<string>, maxAuthors: Option<int>)
    ensures var r := Truncate(names, maxAuthors);
      maxAuthors.Some? && maxAuthors.value > 0 && |names| > maxAuthors.value ==>
        |r| == maxAuthors.value + 1 && r[..maxAuthors.value] == names[..maxAuthors.value] && r[maxAuthors.value] == "et al."
    ensures maxAuthors.None? || maxAuthors == Some(0) || (maxAuthors.value > 0 && |names| <= maxAuthors.value) ==>
      Truncate(names, maxAuthors) == names
  {
  }

  /** A negative limit counts from the end, as Python slicing does: all but the
      last `-m` names, then `et al.`. */
  lemma TruncateNegativeLimit(names: seq<string>, m: int)
    requires m < 0
    ensures var r := Truncate(names, Some(m));
      var kept := if |names| + m >= 0 then |names| + m else 0;
      |r| == kept + 1 && r[..kept] == names[..kept] && r[kept] == "et al."
  {
  }

  // ---------------------------------------------------------------------------
  // Citation details

  /** The pieces of `format_citation_details`: the journal in italics, then the
      volume with its issue and page, or the page alone. */
  function CitationParts(item: CslItem): seq<string> {
    (if Truthy(item.containerTitle) then ["*" + item.containerTitle.value + "*"] else [])
    + (if Truthy(item.volume) then
         [item.volume.value + (if Truthy(item.issue) then "(" + item.issue.value + ")" else "")
                            + (if Truthy(item.page) then ":" + item.page.value else "")]
       else if Truthy(item.page) then [item.page.value]
       else [])
  }

  function CitationDetails(item: CslItem): string {
    Join(" ", CitationParts(item))
  }

  lemma JoinEmpty(sep: string, parts: seq<string>)
    requires forall k :: 0 <= k < |parts| ==> parts[k] != []
    ensures Join(sep, parts) == [] <==> parts == []
  {
    if |parts| > 1 {
      assert Join(sep, parts) == parts[0] + sep + Join(sep, parts[1..]);
    }
  }

  /** The details are empty exactly when the item has no journal, no volume and no
      page; an issue alone never shows. */
  lemma CitationEmptyIff(item: CslItem)
    ensures CitationDetails(item) == "" <==>
      !Truthy(item.containerTitle) && !Truthy(item.volume) && !Truthy(item.page)
  {
    JoinEmpty(" ", CitationParts(item));
  }

  /** Without a volume the issue is dropped. */
  lemma IssueNeedsVolume(item: CslItem)
    requires !Truthy(item.volume)
    ensures CitationDetails(item) == CitationDetails(item.(issue := None))
  {
  }

  /** The volume piece: `volume(issue):page`, each addition only when present. */
  lemma VolumePiece(item: CslItem)
    requires Truthy(item.volume)
    ensures var parts := CitationParts(item);
      var v := parts[|parts| - 1];
      && StartsWith(v, item.volume.value)
      && (Truthy(item.issue) && Truthy(item.page) ==>
            v == item.volume.value + "(" + item.issue.value + "):" + item.page.value)
      && (!Truthy(item.issue) && !Truthy(item.page) ==> v == item.volume.value)
  {
    var parts := CitationParts(item);
    var v := parts[|parts| - 1];
    var rest := (if Truthy(item.issue) then "(" + item.issue.value + ")" else "")
                + (if Truthy(item.page) then ":" + item.page.value else "");
    assert v == item.volume.value + rest;
    assert v[..|item.volume.value|] == item.volume.value;
  }

  // ---------------------------------------------------------------------------
  // One entry

  /** The switches of the page. `highlight` and `headerNote` are empty when unset. */
  datatype Config = Config(highlight: string, showCitations: bool, showOaLinks: bool,
                           maxAuthors: Option<int>, headerNote: string)

  /** `re.sub(r'<[^>]+>', '', s)`: every `<`, at least one other character and the
      first `>` after it removed, scanning left to right. */
  function StripTags(s: string): (r: string)
    decreases |s|
    ensures |r| <= |s|
  {
    if s == [] then []
    else if s[0] == '<' && 2 <= SkipNotIn(s, 1, {'>'}) < |s| then StripTags(s[SkipNotIn(s, 1, {'>'}) + 1..])
    else [s[0]] + StripTags(s[1..])
  }

  /** A title without `<` keeps every character. */
  lemma {:induction false} StripTagsPlain(s: string)
    requires '<' !in s
    ensures StripTags(s) == s
    decreases |s|
  {
    if s != [] {
      assert '<' !in s[1..];
      StripTagsPlain(s[1..]);
      assert s == [s[0]] + s[1..];
    }
  }

  /** A tag around plain text is removed, leaving the text. */
  lemma StripTagsAroundText(tag: string, x: string)
    requires tag != [] && '>' !in tag && '<' !in x
    ensures StripTags("<" + tag + ">" + x) == x
  {
    var s := "<" + tag + ">" + x;
    SkipNotInStopsAt(s, 1, |tag| + 1, {'>'});
    assert s[|tag| + 2..] == x;
    StripTagsPlain(x);
  }

  /** The year shown in the header: the number, or `Unknown` when there is none or it is 0. */
  function YearLabel(y: Option<int>): string {
    if HasYear(y) then IntToString(y.value) else "Unknown"
  }

  function DoiLine(doi: string): string {
    "DOI: [" + doi + "](https://doi.org/" + doi + ")"
  }

  /** The extras: the citation count whenever one is recorded, 0 included, and an
      open-access link unless it points at doi.org. */
  function Extras(item: CslItem, cfg: Config): seq<string> {
    (if cfg.showCitations && item.citationCount.Some? then ["Citations: " + IntToString(item.citationCount.value)] else [])
    + (if cfg.showOaLinks && Truthy(item.url) && !Contains(item.url.value, "doi.org")
       then ["[Open Access](" + item.url.value + ")"] else [])
  }

  /** The first line: number, authors and year. */
  function HeaderLine(item: CslItem, n: int, cfg: Config): string {
    NumberTag(n) + AuthorsText(item.author, cfg.highlight, cfg.maxAuthors) + YearTag(GetYear(item))
  }

  function NumberTag(n: int): string { "[" + IntToString(n) + "] " }

  function YearTag(y: Option<int>): string { " (" + YearLabel(y) + ")" }

  /** The second line: the title without tags, in bold, and the citation details. */
  function TitleLine(item: CslItem): string {
    var title := StripTags(if item.title.Some? then item.title.value else "Unknown title");
    var citation := CitationDetails(item);
    if citation != "" then "**" + title + "** " + citation else "**" + title + "**"
  }

  /** The lines of `format_entry`. */
  function EntryLines(item: CslItem, n: int, cfg: Config): seq<string> {
    var extras := Extras(item, cfg);
    [HeaderLine(item, n, cfg), TitleLine(item)]
    + (if Truthy(item.doi) then [DoiLine(item.doi.value)] else [])
    + (if extras != [] then [Join(" | ", extras)] else [])
  }

  /** `format_entry`. */
  function FormatEntry(item: CslItem, n: int, cfg: Config): string {
    Join("\n", EntryLines(item, n, cfg))
  }

  lemma SplitAt(a: string, b: string)
    ensures (a + b)[..|a|] == a && (a + b)[|a|..] == b
  {
  }

  /** An entry has its header and title lines, then a DOI line exactly when the
      item has a DOI, then an extras line exactly when there are extras. */
  lemma EntryLineCount(item: CslItem, n: int, cfg: Config)
    ensures var lines := EntryLines(item, n, cfg);
      && |lines| == 2 + (if Truthy(item.doi) then 1 else 0) + (if Extras(item, cfg) != [] then 1 else 0)
      && lines[0] == HeaderLine(item, n, cfg) && lines[1] == TitleLine(item)
      && (Truthy(item.doi) ==> lines[2] == DoiLine(item.doi.value))
  {
  }

  /** `a + b + c` starts with `a` and ends with `c`. */
  lemma ConcatEnds(a: string, b: string, c: string)
    ensures StartsWith(a + b + c, a)
    ensures |a + b + c| >= |c| && (a + b + c)[|a + b + c| - |c|..] == c
  {
    assert (a + b + c)[..|a|] == a;
    assert (a + b + c)[|a + b|..] == c;
  }

  /** The header starts with the bracketed number and ends with the year in
      parentheses, or with `(Unknown)` when the item has no year. */
  lemma HeaderShowsNumberAndYear(item: CslItem, n: int, cfg: Config)
    ensures var h := HeaderLine(item, n, cfg);
      && StartsWith(h, NumberTag(n))
      && |h| >= |YearTag(GetYear(item))| && h[|h| - |YearTag(GetYear(item))|..] == YearTag(GetYear(item))
    ensures NumberTag(n) == "[" + IntToString(n) + "] "
    ensures !HasYear(GetYear(item)) ==> YearTag(GetYear(item)) == " (Unknown)"
    ensures HasYear(GetYear(item)) ==> YearTag(GetYear(item)) == " (" + IntToString(GetYear(item).value) + ")"
  {
    ConcatEnds(NumberTag(n), AuthorsText(item.author, cfg.highlight, cfg.maxAuthors), YearTag(GetYear(item)));
  }

  /** A recorded citation count is shown when counts are switched on, 0 included,
      and comes first among the extras. */
  lemma CitationsShown(item: CslItem, cfg: Config)
    ensures var ex := Extras(item, cfg);
      (cfg.showCitations && item.citationCount.Some?) <==>
        (item.citationCount.Some? && ex != [] && ex[0] == "Citations: " + IntToString(item.citationCount.value))
  {
    var ex := Extras(item, cfg);
    if ex != [] && !(cfg.showCitations && item.citationCount.Some?) {
      assert ex[0][0] == '[';
    }
  }

  /** The open-access link is shown exactly when links are on, the item has a URL,
      and the URL does not contain `doi.org`: it comes last among the extras. */
  lemma OpenAccessShown(item: CslItem, cfg: Config)
    ensures var ex := Extras(item, cfg);
      (cfg.showOaLinks && Truthy(item.url) && !Contains(item.url.value, "doi.org")) <==>
        (item.url.Some? && ex != [] && ex[|ex| - 1] == "[Open Access](" + item.url.value + ")")
  {
    var ex := Extras(item, cfg);
    if ex != [] && !(cfg.showOaLinks && Truthy(item.url) && !Contains(item.url.value, "doi.org")) {
      assert ex[|ex| - 1][0] == 'C';
    }
  }

  // ---------------------------------------------------------------------------
  // Numbering and grouping

  /** An item with the `_entry_num` key the grouping adds to it (`None` until set). */
  datatype PageEntry = PageEntry(item: CslItem, entryNum: Option<int>)

  /** The note number of every entry, in order. */
  function Notes(es: seq<PageEntry>): (r: seq<Option<nat>>)
    ensures |r| == |es|
  {
    seq(|es|, k requires 0 <= k < |es| => ExtractEntryNumber(es[k].item))
  }

  /** The largest non-zero number among the first `n` of `nums`, 0 when there is none. */
  function MaxEntry(nums: seq<Option<nat>>, n: nat): (m: nat)
    requires n <= |nums|
    ensures forall k :: 0 <= k < n && nums[k].Some? ==> nums[k].value <= m
    ensures m == 0 || exists k :: 0 <= k < n && nums[k] == Some(m)
  {
    if n == 0 then 0
    else
      var m := MaxEntry(nums, n - 1);
      if nums[n - 1].Some? && nums[n - 1].value != 0 && nums[n - 1].value > m then nums[n - 1].value else m
  }

  /** How many of the first `n` of `nums` are missing. */
  function Unnumbered(nums: seq<Option<nat>>, n: nat): (c: nat)
    requires n <= |nums|
    ensures c <= n
  {
    if n == 0 then 0 else Unnumbered(nums, n - 1) + (if nums[n - 1].None? then 1 else 0)
  }

  /** The number entry `k` ends up with: its own, or the next fresh one after the
      largest. */
  function NumberAt(nums: seq<Option<nat>>, k: nat): int
    requires k < |nums|
  {
    if nums[k].Some? then nums[k].value else MaxEntry(nums, |nums|) + 1 + Unnumbered(nums, k)
  }

  /** The entries with the numbers they end up with. */
  ghost function Numbered(es: seq<PageEntry>): (r: seq<PageEntry>)
    ensures |r| == |es|
  {
    var nums := Notes(es);
    seq(|es|, k requires 0 <= k < |es| => es[k].(entryNum := Some(NumberAt(nums, k))))
  }

  /** The year an entry is filed under: its year, when it has one other than 0. */
  function PageYear(e: PageEntry): (r: Option<int>)
    ensures r.Some? <==> HasYear(GetYear(e.item))
    ensures r.Some? ==> r == GetYear(e.item)
  {
    if HasYear(GetYear(e.item)) then GetYear(e.item) else None
  }

  /** `x.get('_entry_num', 0)`. */
  function SortKey(e: PageEntry): int {
    if e.entryNum.Some? then e.entryNum.value else 0
  }

  /** The first pass of `group_publications`: every entry gets its note number. */
  method ReadEntryNumbers(pubs: array<PageEntry>) returns (maxEntry: nat)
    modifies pubs
    ensures maxEntry == MaxEntry(Notes(old(pubs[..])), pubs.Length)
    ensures forall k :: 0 <= k < pubs.Length ==> pubs[k] == old(pubs[k]).(entryNum := Notes(old(pubs[..]))[k])
  {
    ghost var orig := pubs[..];
    ghost var nums := Notes(orig);
    maxEntry := 0;
    for i := 0 to pubs.Length
      invariant maxEntry == MaxEntry(nums, i)
      invariant forall k :: 0 <= k < i ==> pubs[k] == orig[k].(entryNum := nums[k])
      invariant forall k :: i <= k < pubs.Length ==> pubs[k] == orig[k]
    {
      var entry := ExtractEntryNumber(pubs[i].item);
      assert entry == nums[i];
      pubs[i] := pubs[i].(entryNum := entry);
      if entry.Some? && entry.value != 0 && entry.value > maxEntry {
        maxEntry := entry.value;
      }
    }
  }

  /** The year dictionary of `done + [pub]` from that of `done`: the entry is
      appended to the list of its year, which is created first when new. */
  method FileUnderYear(ghost done: seq<PageEntry>, pub: PageEntry, years: seq<int>, byYear: map<int, seq<PageEntry>>)
    returns (years': seq<int>, byYear': map<int, seq<PageEntry>>)
    requires years == YearKeys(done, PageYear)
    requires forall y :: y in byYear <==> y in years
    requires forall y :: y in byYear ==> byYear[y] == InYear(done, PageYear, y)
    ensures years' == YearKeys(done + [pub], PageYear)
    ensures forall y :: y in byYear' <==> y in years'
    ensures forall y :: y in byYear' ==> byYear'[y] == InYear(done + [pub], PageYear, y)
  {
    assert (done + [pub])[..|done|] == done;
    years', byYear' := years, byYear;
    var year := GetYear(pub.item);
    if year.Some? && year.value != 0 {
      if year.value !in byYear' {
        byYear' := byYear'[year.value := []];
        years' := years' + [year.value];
      }
      byYear' := byYear'[year.value := byYear'[year.value] + [pub]];
    }
    forall y | y in byYear' ensures byYear'[y] == InYear(done + [pub], PageYear, y) {
      assert InYear(done + [pub], PageYear, y)
        == InYear(done, PageYear, y) + (if PageYear(pub) == Some(y) then [pub] else []);
      if y !in byYear {
        InYearEmpty(done, PageYear, y);
      }
    }
  }

  /** One step of the second pass: entry `i` keeps its note number or takes the
      next fresh one. */
  method NumberEntry(pubs: array<PageEntry>, i: nat, next: int, ghost orig: seq<PageEntry>)
    returns (pub: PageEntry, next': int)
    requires i < pubs.Length == |orig|
    requires next == MaxEntry(Notes(orig), |orig|) + 1 + Unnumbered(Notes(orig), i)
    requires pubs[..i] == Numbered(orig)[..i]
    requires forall k :: i <= k < pubs.Length ==> pubs[k] == orig[k].(entryNum := Notes(orig)[k])
    modifies pubs
    ensures next' == MaxEntry(Notes(orig), |orig|) + 1 + Unnumbered(Notes(orig), i + 1)
    ensures pub == Numbered(orig)[i]
    ensures pubs[..i + 1] == Numbered(orig)[..i + 1]
    ensures forall k :: i + 1 <= k < pubs.Length ==> pubs[k] == orig[k].(entryNum := Notes(orig)[k])
  {
    ghost var nums := Notes(orig);
    ghost var done := pubs[..i];
    assert NumberAt(nums, i) == if nums[i].Some? then nums[i].value else next;
    pub := pubs[i];
    next' := next;
    if pub.entryNum.None? {
      pub := pub.(entryNum := Some(next));
      next' := next + 1;
    }
    pubs[i] := pub;
    assert pub == Numbered(orig)[i];
    assert pubs[..i] == done;
    PrefixSnoc(pubs[..], i);
    PrefixSnoc(Numbered(orig), i);
  }

  /** `group_publications`: the first pass, then a second that numbers the
      entries without a number and files every entry with a year. */
  method GroupPublications(pubs: array<PageEntry>) returns (years: seq<int>, byYear: map<int, seq<PageEntry>>)
    modifies pubs
    ensures forall k :: 0 <= k < pubs.Length ==>
      pubs[k] == old(pubs[k]).(entryNum := Some(NumberAt(Notes(old(pubs[..])), k)))
    ensures years == YearKeys(pubs[..], PageYear)
    ensures forall y :: y in byYear <==> y in years
    ensures forall y :: y in byYear ==> byYear[y] == InYear(pubs[..], PageYear, y)
  {
    ghost var orig := pubs[..];
    ghost var nums := Notes(orig);
    ghost var final := Numbered(orig);
    var maxEntry := ReadEntryNumbers(pubs);
    var next := maxEntry + 1;
    years, byYear := [], map[];
    for i := 0 to pubs.Length
      invariant next == MaxEntry(nums, |nums|) + 1 + Unnumbered(nums, i)
      invariant pubs[..i] == final[..i]
      invariant forall k :: i <= k < pubs.Length ==> pubs[k] == orig[k].(entryNum := nums[k])
      invariant years == YearKeys(final[..i], PageYear)
      invariant forall y :: y in byYear <==> y in years
      invariant forall y :: y in byYear ==> byYear[y] == InYear(final[..i], PageYear, y)
    {
      var pub;
      pub, next := NumberEntry(pubs, i, next, orig);
      PrefixSnoc(final, i);
      years, byYear := FileUnderYear(final[..i], pub, years, byYear);
    }
    assert pubs[..pubs.Length] == pubs[..];
    assert final[..pubs.Length] == final;
  }

  // ---------------------------------------------------------------------------
  // New numbers

  lemma {:induction false} UnnumberedGrows(nums: seq<Option<nat>>, j: nat, k: nat)
    requires j < k <= |nums| && nums[j].None?
    ensures Unnumbered(nums, k) >= Unnumbered(nums, j) + 1
    decreases k
  {
    if k > j + 1 {
      UnnumberedGrows(nums, j, k - 1);
    }
  }

  /** A number handed out by the second pass is larger than every note number,
      and no two entries without a note get the same one. */
  lemma FreshNumbersUnique(nums: seq<Option<nat>>, j: nat, k: nat)
    requires j < |nums| && k < |nums| && j != k && nums[j].None?
    ensures NumberAt(nums, j) != NumberAt(nums, k)
    ensures nums[k].Some? ==> NumberAt(nums, j) > nums[k].value
  {
    if nums[k].None? {
      if j < k {
        UnnumberedGrows(nums, j, k);
      } else {
        UnnumberedGrows(nums, k, j);
      }
    }
  }

  // ---------------------------------------------------------------------------
  // The page

  /** The front matter, then the header note and a blank line when there is one. */
  function PageHead(cfg: Config): seq<string> {
    ["---", "layout: page", "title: Papers", "permalink: /papers/", "---", ""]
    + (if cfg.headerNote != "" then [cfg.headerNote, ""] else [])
  }

  /** The lines of the entries of one year, each followed by a blank line. */
  function EntryBlocks(es: seq<PageEntry>, cfg: Config): seq<string>
    decreases |es|
  {
    if es == [] then []
    else EntryBlocks(es[..|es| - 1], cfg) + [FormatEntry(es[|es| - 1].item, SortKey(es[|es| - 1]), cfg), ""]
  }

  /** One year section: its heading, a blank line and its entries. */
  function SectionBlock(y: int, es: seq<PageEntry>, cfg: Config): seq<string> {
    ["### " + IntToString(y), ""] + EntryBlocks(es, cfg)
  }

  /** A year section as a function of the section. */
  function SectionBlockOf(cfg: Config): ((int, seq<PageEntry>)) -> seq<string> {
    (sec: (int, seq<PageEntry>)) => SectionBlock(sec.0, sec.1, cfg)
  }

  /** The year sections one after another. */
  function SectionBlocks(secs: seq<(int, seq<PageEntry>)>, cfg: Config): seq<string> {
    FlatMap(secs, SectionBlockOf(cfg))
  }

  /** The sections of the page: the years newest first, each with its entries by
      decreasing number. */
  function PageSections(es: seq<PageEntry>): seq<(int, seq<PageEntry>)> {
    YearSections(es, PageYear, SortKey)
  }

  /** The lines of the page for the numbered entries `es`. */
  function PageLines(es: seq<PageEntry>, cfg: Config): seq<string> {
    PageHead(cfg) + SectionBlocks(PageSections(es), cfg)
  }

  /** The entries of one year appended to the output, each with a blank line. */
  method AppendEntries(output: seq<string>, list: seq<PageEntry>, cfg: Config) returns (output': seq<string>)
    ensures output' == output + EntryBlocks(list, cfg)
  {
    output' := output;
    for m := 0 to |list|
      invariant output' == output + EntryBlocks(list[..m], cfg)
    {
      var pub := list[m];
      assert list[..m + 1][..m] == list[..m];
      AppendAssociative(output, EntryBlocks(list[..m], cfg), [FormatEntry(pub.item, SortKey(pub), cfg), ""]);
      output' := output' + [FormatEntry(pub.item, SortKey(pub), cfg), ""];
    }
    assert list[..|list|] == list;
  }

  /** The `j`-th section of the page, read off the year dictionary. */
  lemma SectionFromDictionary(es: seq<PageEntry>, years: seq<int>, byYear: map<int, seq<PageEntry>>, j: nat)
    requires years == YearKeys(es, PageYear)
    requires forall y :: y in byYear <==> y in years
    requires forall y :: y in byYear ==> byYear[y] == InYear(es, PageYear, y)
    requires j < |years|
    ensures var y := SortDescending(years, Identity)[j];
      && y in byYear && j < |PageSections(es)|
      && PageSections(es)[j] == (y, SortDescending(byYear[y], SortKey))
  {
    var y := SortDescending(years, Identity)[j];
    SortedHasSameMembers(years, Identity, y);
    YearSectionAt(es, PageYear, SortKey, j);
  }

  /** One year section appended to the page. */
  method AppendSection(ghost head: seq<string>, ghost secs: seq<(int, seq<PageEntry>)>, j: nat,
                       output: seq<string>, y: int, list: seq<PageEntry>, cfg: Config)
    returns (output': seq<string>)
    requires j < |secs| && secs[j] == (y, list)
    requires output == head + SectionBlocks(secs[..j], cfg)
    ensures output' == head + SectionBlocks(secs[..j + 1], cfg)
  {
    FlatMapOfPrefix(secs, j, SectionBlockOf(cfg));
    AppendAssociative(head, SectionBlocks(secs[..j], cfg), SectionBlock(y, list, cfg));
    AppendAssociative(output, ["### " + IntToString(y), ""], EntryBlocks(list, cfg));
    output' := output + ["### " + IntToString(y), ""];
    output' := AppendEntries(output', list, cfg);
  }

  /** The loop of `generate_markdown` over the year dictionary: every year,
      newest first, with its entries by decreasing number. */
  method AppendSections(head: seq<string>, ghost es: seq<PageEntry>, years: seq<int>,
                        byYear: map<int, seq<PageEntry>>, cfg: Config)
    returns (output: seq<string>)
    requires years == YearKeys(es, PageYear)
    requires forall y :: y in byYear <==> y in years
    requires forall y :: y in byYear ==> byYear[y] == InYear(es, PageYear, y)
    ensures output == head + SectionBlocks(PageSections(es), cfg)
  {
    output := head;
    ghost var secs := PageSections(es);
    var sorted := SortDescending(years, Identity);
    for j := 0 to |sorted|
      invariant output == head + SectionBlocks(secs[..j], cfg)
    {
      SectionFromDictionary(es, years, byYear, j);
      var y := sorted[j];
      var list := SortDescending(byYear[y], SortKey);
      output := AppendSection(head, secs, j, output, y, list, cfg);
    }
    assert secs[..|sorted|] == secs;
  }

  /** `generate_markdown`: the front matter and header note, then the entries
      numbered and grouped, the years newest first and each year's entries by
      decreasing number, all joined by newlines. */
  method GenerateMarkdown(pubs: array<PageEntry>, cfg: Config) returns (text: string)
    modifies pubs
    ensures forall k :: 0 <= k < pubs.Length ==>
      pubs[k] == old(pubs[k]).(entryNum := Some(NumberAt(Notes(old(pubs[..])), k)))
    ensures text == Join("\n", PageLines(pubs[..], cfg))
  {
    var output := ["---", "layout: page", "title: Papers", "permalink: /papers/", "---", ""];
    if cfg.headerNote != "" {
      output := output + [cfg.headerNote, ""];
    }
    assert output == PageHead(cfg);
    var years, byYear := GroupPublications(pubs);
    output := AppendSections(output, pubs[..], years, byYear, cfg);
    text := Join("\n", output);
  }

  // ---------------------------------------------------------------------------
  // Properties of the page

  /** The years come newest first, and each year lists its entries by
      decreasing number. */
  lemma PageSectionsOrdered(es: seq<PageEntry>)
    ensures var r := PageSections(es);
      && (forall i, j :: 0 <= i < j < |r| ==> r[i].0 > r[j].0)
      && (forall j :: 0 <= j < |r| ==> Descending(r[j].1, SortKey))
  {
    var r := PageSections(es);
    YearSectionsNewestFirst(es, PageYear, SortKey);
    forall j | 0 <= j < |r| ensures Descending(r[j].1, SortKey) {
      YearSectionContents(es, PageYear, SortKey, j, es[0]);
    }
  }

  /** A year's section holds exactly the entries filed under that year. */
  lemma PageSectionMembers(es: seq<PageEntry>, j: nat, x: PageEntry)
    requires j < |PageSections(es)|
    ensures var r := PageSections(es);
      x in r[j].1 <==> x in es && PageYear(x) == Some(r[j].0)
  {
    YearSectionContents(es, PageYear, SortKey, j, x);
  }

  lemma {:induction false} EntryBlocksShow(es: seq<PageEntry>, cfg: Config, x: PageEntry)
    requires x in es
    ensures FormatEntry(x.item, SortKey(x), cfg) in EntryBlocks(es, cfg)
    decreases |es|
  {
    var last := es[|es| - 1];
    if x != last {
      assert es == es[..|es| - 1] + [last];
      EntryBlocksShow(es[..|es| - 1], cfg, x);
    }
  }

  lemma SectionBlockShows(y: int, es: seq<PageEntry>, cfg: Config, x: PageEntry)
    requires x in es
    ensures "### " + IntToString(y) in SectionBlock(y, es, cfg)
    ensures FormatEntry(x.item, SortKey(x), cfg) in SectionBlock(y, es, cfg)
  {
    EntryBlocksShow(es, cfg, x);
  }

  /** A section's heading and each of its entries are lines of the sections. */
  lemma SectionBlocksShow(secs: seq<(int, seq<PageEntry>)>, cfg: Config, j: nat, x: PageEntry)
    requires j < |secs| && x in secs[j].1
    ensures "### " + IntToString(secs[j].0) in SectionBlocks(secs, cfg)
    ensures FormatEntry(x.item, SortKey(x), cfg) in SectionBlocks(secs, cfg)
  {
    SectionBlockShows(secs[j].0, secs[j].1, cfg, x);
    FlatMapHas(secs, SectionBlockOf(cfg), j, "### " + IntToString(secs[j].0));
    FlatMapHas(secs, SectionBlockOf(cfg), j, FormatEntry(x.item, SortKey(x), cfg));
  }

  /** Every entry with a year is printed on the page, under its year's heading. */
  lemma DatedEntryPrinted(es: seq<PageEntry>, cfg: Config, k: nat)
    requires k < |es| && PageYear(es[k]).Some?
    ensures FormatEntry(es[k].item, SortKey(es[k]), cfg) in PageLines(es, cfg)
    ensures "### " + IntToString(PageYear(es[k]).value) in PageLines(es, cfg)
  {
    var r := PageSections(es);
    YearSectionsCoverYears(es, PageYear, SortKey, k);
    var j :| 0 <= j < |r| && r[j].0 == PageYear(es[k]).value;
    PageSectionMembers(es, j, es[k]);
    SectionBlocksShow(r, cfg, j, es[k]);
  }
}
