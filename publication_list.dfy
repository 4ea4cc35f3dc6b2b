/**
 Reading the hand-written publication list (`parse_markdown_publications`).

 The file is split into lines. A `### ` line sets the current section; a line of
 the form `[N] text` opens an entry, which absorbs the following lines while they
 are non-blank and do not start with `[`, `###` or an em dash; each absorbed line is
 appended, stripped, after one space. Each assembled entry is handed to
 `ParseEntry`, whose failure on a non-numeric section ends the whole read.

 `Groups` states the grouping as a recursive function over the lines; the method
 `ParseMarkdownPublications` is the source's loop, proved to produce
 `ParseAll(Groups(lines))`.
 */
module PublicationList {
  import opened Text
  import opened Records
  import opened EntryParser

  /** An entry as the line loop assembles it: its number, its text, the section it
      sits in and the index of the line that opened it. */
  datatype RawEntry = RawEntry(entryNum: nat, content: string, section: Option<string>, line: nat)

  /** A section header line (already stripped). */
  predicate IsHeader(line: string) {
    StartsWith(line, "### ")
  }

  /** The section a header line names: the text after `### `, stripped. */
  function HeaderName(line: string): string
    requires IsHeader(line)
  {
    Strip(line[4..])
  }

  /** `re.match(r'\[(\d+)\]\s*(.+)', line)`: the entry number and the text after
      it. The text needs at least one character; when only whitespace follows the
      bracket, `\s*` gives its last character back to the text. */
  function EntryStart(line: string): (r: Option<(nat, string)>)
    ensures r.Some? ==> r.value.1 != [] && StartsWith(line, "[")
    ensures r.Some? ==> exists d :: 1 < d < |line| && AllDigits(line[1..d]) && line[d] == ']'
                                    && r.value.0 == DigitsToNat(line[1..d])
  {
    if line == [] || line[0] != '[' then None
    else
      var d := SkipDigits(line, 1);
      if d == 1 || d == |line| || line[d] != ']' then None
      else
        var w := SkipSpaces(line, d + 1);
        var start := if w < |line| then w else w - 1;
        if w == |line| && w == d + 1 then None
        else
          assert forall k :: 0 <= k < d - 1 ==> line[1..d][k] == line[1 + k];
          Some((DigitsToNat(line[1..d]), line[start..]))
  }

  /** A line that continues the entry above it. */
  predicate IsContinuation(raw: string) {
    var line := Strip(raw);
    line != [] && !StartsWith(line, "[") && !StartsWith(line, "###") && !StartsWith(line, "\U{2014}")
  }

  /** The first line at or after `k` that does not continue an entry. */
  function ContinuationEnd(lines: seq<string>, k: nat): (r: nat)
    requires k <= |lines|
    decreases |lines| - k
    ensures k <= r <= |lines|
    ensures forall t :: k <= t < r ==> IsContinuation(lines[t])
    ensures r < |lines| ==> !IsContinuation(lines[r])
  {
    if k < |lines| && IsContinuation(lines[k]) then ContinuationEnd(lines, k + 1) else k
  }

  /** The continuation lines `a..b`, each stripped and preceded by one space. */
  function JoinContinuation(lines: seq<string>, a: nat, b: nat): (r: string)
    requires a <= b <= |lines|
    decreases b - a
  {
    if a == b then "" else JoinContinuation(lines, a, b - 1) + " " + Strip(lines[b - 1])
  }

  /** The entries of the lines from `i` on, with `section` the current section. */
  function GroupsFrom(lines: seq<string>, i: nat, section: Option<string>): (r: seq<RawEntry>)
    requires i <= |lines|
    decreases |lines| - i
    ensures forall k :: 0 <= k < |r| ==> i <= r[k].line < |lines|
  {
    if i == |lines| then []
    else
      var line := Strip(lines[i]);
      if IsHeader(line) then GroupsFrom(lines, i + 1, Some(HeaderName(line)))
      else
        match EntryStart(line)
        case Some((n, text)) =>
          var j := ContinuationEnd(lines, i + 1);
          [RawEntry(n, text + JoinContinuation(lines, i + 1, j), section, i)] + GroupsFrom(lines, j, section)
        case None => GroupsFrom(lines, i + 1, section)
  }

  /** The text of the entry opened at line `i`: the text after its number, then
      each continuation line after one space. */
  function EntryText(lines: seq<string>, i: nat): string
    requires i < |lines| && EntryStart(Strip(lines[i])).Some?
  {
    EntryStart(Strip(lines[i])).value.1 + JoinContinuation(lines, i + 1, ContinuationEnd(lines, i + 1))
  }

  /** Unfolding the grouping at an entry line. */
  lemma GroupsFromEntry(lines: seq<string>, i: nat, section: Option<string>)
    requires i < |lines| && !IsHeader(Strip(lines[i])) && EntryStart(Strip(lines[i])).Some?
    ensures GroupsFrom(lines, i, section) ==
      [RawEntry(EntryStart(Strip(lines[i])).value.0, EntryText(lines, i), section, i)]
      + GroupsFrom(lines, ContinuationEnd(lines, i + 1), section)
  {
  }

  /** Unfolding the grouping at a header line. */
  lemma GroupsFromHeader(lines: seq<string>, i: nat, section: Option<string>)
    requires i < |lines| && IsHeader(Strip(lines[i]))
    ensures GroupsFrom(lines, i, section) == GroupsFrom(lines, i + 1, Some(HeaderName(Strip(lines[i]))))
  {
  }

  /** Unfolding the grouping at a line that is neither a header nor an entry. */
  lemma GroupsFromOther(lines: seq<string>, i: nat, section: Option<string>)
    requires i < |lines| && !IsHeader(Strip(lines[i])) && EntryStart(Strip(lines[i])).None?
    ensures GroupsFrom(lines, i, section) == GroupsFrom(lines, i + 1, section)
  {
  }

  /** The entries of a whole file, before any section header. */
  function Groups(lines: seq<string>): seq<RawEntry> {
    GroupsFrom(lines, 0, None)
  }

  /** `publications` followed by the outcome of the rest: a failure wins. */
  function Prepend(publications: seq<Publication>, rest: Result<seq<Publication>, ParseError>): (r: Result<seq<Publication>, ParseError>)
    ensures r.Success? <==> rest.Success?
    ensures r.Success? ==> r.value == publications + rest.value
  {
    match rest
    case Success(ps) => Success(publications + ps)
    case Failure(e) => Failure(e)
  }

  /** No entry text holds a line break. */
  predicate NoBreaks(raws: seq<RawEntry>) {
    forall k :: 0 <= k < |raws| ==> '\n' !in raws[k].content
  }

  /** `parse_entry` on one grouped entry. */
  function ParseRaw(raw: RawEntry): Result<Publication, ParseError>
    requires '\n' !in raw.content
  {
    ParseEntry(raw.entryNum, raw.content, raw.section)
  }

  /** An entry parser; `ParseRaw` is the one the source uses. The reading loop and
      the facts about `ParseAll` hold for any parser defined on the entries. */
  type Parser = RawEntry --> Result<Publication, ParseError>

  ghost predicate ParsesAll(parse: Parser, raws: seq<RawEntry>) {
    forall k :: 0 <= k < |raws| ==> parse.requires(raws[k])
  }

  /** Parsing the entries in order; the first failure ends the run. */
  function ParseAll(parse: Parser, raws: seq<RawEntry>): Result<seq<Publication>, ParseError>
    requires ParsesAll(parse, raws)
  {
    if raws == [] then Success([])
    else
      match parse(raws[0])
      case Failure(e) => Failure(e)
      case Success(p) => Prepend([p], ParseAll(parse, raws[1..]))
  }

  lemma PrependTwice(publications: seq<Publication>, p: Publication, rest: Result<seq<Publication>, ParseError>)
    ensures Prepend(publications, Prepend([p], rest)) == Prepend(publications + [p], rest)
  {
    if rest.Success? {
      assert publications + ([p] + rest.value) == (publications + [p]) + rest.value;
    }
  }

  /** Parsing one more entry in front. */
  lemma ParseAllCons(parse: Parser, raw: RawEntry, rest: seq<RawEntry>)
    requires parse.requires(raw) && ParsesAll(parse, rest)
    ensures ParsesAll(parse, [raw] + rest)
    ensures var parsed := parse(raw);
      ParseAll(parse, [raw] + rest) ==
        if parsed.Failure? then Failure(parsed.error) else Prepend([parsed.value], ParseAll(parse, rest))
  {
    assert ([raw] + rest)[0] == raw;
    assert ([raw] + rest)[1..] == rest;
  }

  /** The read fails exactly when some entry fails to parse. */
  lemma {:induction false} ParseAllFails(parse: Parser, raws: seq<RawEntry>)
    requires ParsesAll(parse, raws)
    ensures ParseAll(parse, raws).Failure? <==>
      exists k :: 0 <= k < |raws| && parse(raws[k]).Failure?
  {
    if raws != [] {
      var rest := raws[1..];
      assert forall k :: 1 <= k < |raws| ==> raws[k] == rest[k - 1];
      ParseAllFails(parse, rest);
    }
  }

  /** A successful read yields one publication per entry, in order, each the parse
      of its entry. */
  lemma {:induction false} ParseAllSucceeds(parse: Parser, raws: seq<RawEntry>)
    requires ParsesAll(parse, raws)
    requires ParseAll(parse, raws).Success?
    ensures |ParseAll(parse, raws).value| == |raws|
    ensures forall k :: 0 <= k < |raws| ==> parse(raws[k]) == Success(ParseAll(parse, raws).value[k])
  {
    if raws != [] {
      var rest := raws[1..];
      assert forall k :: 1 <= k < |raws| ==> raws[k] == rest[k - 1];
      ParseAllSucceeds(parse, rest);
    }
  }

  // ---------------------------------------------------------------------------
  // Lines carry no line breaks, and neither do the entries built from them

  lemma StripHasNoBreak(x: string)
    requires '\n' !in x
    ensures '\n' !in Strip(x)
  {
    var r := Strip(x);
    var y := x[SkipSpaces(x, 0)..];
    assert r == y[..|r|];
    assert forall k :: 0 <= k < |r| ==> r[k] == x[SkipSpaces(x, 0) + k];
  }

  lemma JoinContinuationHasNoBreak(lines: seq<string>, a: nat, b: nat)
    requires a <= b <= |lines|
    requires forall k :: 0 <= k < |lines| ==> '\n' !in lines[k]
    ensures '\n' !in JoinContinuation(lines, a, b)
    decreases b - a
  {
    if a < b {
      JoinContinuationHasNoBreak(lines, a, b - 1);
      StripHasNoBreak(lines[b - 1]);
    }
  }

  /** The text of an entry read from lines without line breaks has none. */
  lemma EntryTextHasNoBreak(lines: seq<string>, i: nat)
    requires i < |lines| && EntryStart(Strip(lines[i])).Some?
    requires forall k :: 0 <= k < |lines| ==> '\n' !in lines[k]
    ensures '\n' !in EntryText(lines, i)
  {
    var line := Strip(lines[i]);
    StripHasNoBreak(lines[i]);
    var text := EntryStart(line).value.1;
    assert '\n' !in text by {
      var d := SkipDigits(line, 1);
      var w := SkipSpaces(line, d + 1);
      var start := if w < |line| then w else w - 1;
      assert text == line[start..];
      assert forall k :: 0 <= k < |text| ==> text[k] == line[start + k];
    }
    JoinContinuationHasNoBreak(lines, i + 1, ContinuationEnd(lines, i + 1));
  }

  lemma {:induction false} GroupsHaveNoBreaks(lines: seq<string>, i: nat, section: Option<string>)
    requires i <= |lines|
    requires forall k :: 0 <= k < |lines| ==> '\n' !in lines[k]
    ensures NoBreaks(GroupsFrom(lines, i, section))
    decreases |lines| - i
  {
    if i < |lines| {
      var line := Strip(lines[i]);
      if IsHeader(line) {
        GroupsFromHeader(lines, i, section);
        GroupsHaveNoBreaks(lines, i + 1, Some(HeaderName(line)));
      } else if EntryStart(line).Some? {
        GroupsFromEntry(lines, i, section);
        EntryTextHasNoBreak(lines, i);
        GroupsHaveNoBreaks(lines, ContinuationEnd(lines, i + 1), section);
      } else {
        GroupsFromOther(lines, i, section);
        GroupsHaveNoBreaks(lines, i + 1, section);
      }
    }
  }

  // ---------------------------------------------------------------------------
  // The loop

  /** The inner loop: appends the continuation lines after line `first` to `text`
      and returns the index of the first line that does not continue it. */
  method AppendContinuation(lines: seq<string>, first: nat, text: string) returns (entryContent: string, i: nat)
    requires first < |lines|
    ensures i == ContinuationEnd(lines, first + 1)
    ensures entryContent == text + JoinContinuation(lines, first + 1, i)
  {
    entryContent := text;
    i := first + 1;
    while i < |lines| && IsContinuation(lines[i])
      invariant first + 1 <= i <= |lines|
      invariant entryContent == text + JoinContinuation(lines, first + 1, i)
      invariant ContinuationEnd(lines, first + 1) == ContinuationEnd(lines, i)
      decreases |lines| - i
    {
      entryContent := entryContent + " " + Strip(lines[i]);
      i := i + 1;
    }
  }

  /** The line loop of `parse_markdown_publications`, for any parser defined on
      texts without line breaks. */
  method ParseLines(lines: seq<string>, parse: Parser) returns (r: Result<seq<Publication>, ParseError>)
    requires forall k :: 0 <= k < |lines| ==> '\n' !in lines[k]
    requires forall raw: RawEntry :: '\n' !in raw.content ==> parse.requires(raw)
    ensures NoBreaks(Groups(lines)) && r == ParseAll(parse, Groups(lines))
  {
    GroupsHaveNoBreaks(lines, 0, None);
    assert Groups(lines) == GroupsFrom(lines, 0, None);
    assert Prepend([], ParseAll(parse, Groups(lines))) == ParseAll(parse, Groups(lines)) by {
      assert forall ps: seq<Publication> :: [] + ps == ps;
    }
    var publications: seq<Publication> := [];
    var currentSection: Option<string> := None;
    var i := 0;
    while i < |lines|
      invariant 0 <= i <= |lines|
      invariant NoBreaks(GroupsFrom(lines, i, currentSection))
      invariant ParseAll(parse, Groups(lines)) == Prepend(publications, ParseAll(parse, GroupsFrom(lines, i, currentSection)))
      decreases |lines| - i
    {
      ghost var rest := GroupsFrom(lines, i, currentSection);
      var line := Strip(lines[i]);
      if IsHeader(line) {
        GroupsFromHeader(lines, i, currentSection);
        currentSection := Some(HeaderName(line));
        i := i + 1;
        continue;
      }
      var start := EntryStart(line);
      if start.Some? {
        var (entryNum, text) := start.value;
        var first := i;
        var entryContent;
        entryContent, i := AppendContinuation(lines, first, text);
        var raw := RawEntry(entryNum, entryContent, currentSection, first);
        GroupsFromEntry(lines, first, currentSection);
        assert rest == [raw] + GroupsFrom(lines, i, currentSection);
        GroupsHaveNoBreaks(lines, i, currentSection);
        ParseAllCons(parse, raw, GroupsFrom(lines, i, currentSection));
        var pub := parse(raw);
        if pub.Failure? {
          return Failure(pub.error);
        }
        PrependTwice(publications, pub.value, ParseAll(parse, GroupsFrom(lines, i, currentSection)));
        publications := publications + [pub.value];
        continue;
      }
      GroupsFromOther(lines, i, currentSection);
      i := i + 1;
    }
    assert GroupsFrom(lines, i, currentSection) == [];
    assert publications + [] == publications;
    return Success(publications);
  }

  /** `parse_markdown_publications` on the file's text: every entry of the file,
      parsed in file order, unless one of them fails. */
  method ParseMarkdownPublications(content: string) returns (r: Result<seq<Publication>, ParseError>)
    ensures var lines := SplitOn(content, '\n');
      NoBreaks(Groups(lines)) && r == ParseAll(ParseRaw, Groups(lines))
  {
    var lines := SplitOn(content, '\n');
    r := ParseLines(lines, ParseRaw);
  }

  // ---------------------------------------------------------------------------
  // Properties of the grouping

  /** The section the last `### ` header above line `i` names, if there is one. */
  function SectionBefore(lines: seq<string>, i: nat): (r: Option<string>)
    requires i <= |lines|
  {
    if i == 0 then None
    else if IsHeader(Strip(lines[i - 1])) then Some(HeaderName(Strip(lines[i - 1])))
    else SectionBefore(lines, i - 1)
  }

  /** A header line never continues an entry. */
  lemma HeaderIsNotContinuation(raw: string)
    requires IsHeader(Strip(raw))
    ensures !IsContinuation(raw)
  {
    assert Strip(raw)[..3] == "###";
  }

  /** Entries in increasing line order. */
  predicate InFileOrder(g: seq<RawEntry>) {
    forall k, l :: 0 <= k < l < |g| ==> g[k].line < g[l].line
  }

  /** An entry opened at line `i`, before entries in file order that come from
      the lines after its continuation, keeps file order. */
  lemma EntryKeepsOrder(lines: seq<string>, i: nat, section: Option<string>)
    requires i < |lines| && !IsHeader(Strip(lines[i])) && EntryStart(Strip(lines[i])).Some?
    requires InFileOrder(GroupsFrom(lines, ContinuationEnd(lines, i + 1), section))
    ensures InFileOrder(GroupsFrom(lines, i, section))
  {
    GroupsFromEntry(lines, i, section);
  }

  /** Entries come out in file order. */
  lemma {:induction false} GroupsInOrder(lines: seq<string>, i: nat, section: Option<string>)
    requires i <= |lines|
    ensures InFileOrder(GroupsFrom(lines, i, section))
    decreases |lines| - i
  {
    if i < |lines| {
      var line := Strip(lines[i]);
      if IsHeader(line) {
        GroupsFromHeader(lines, i, section);
        GroupsInOrder(lines, i + 1, Some(HeaderName(line)));
      } else if EntryStart(line).Some? {
        GroupsInOrder(lines, ContinuationEnd(lines, i + 1), section);
        EntryKeepsOrder(lines, i, section);
      } else {
        GroupsFromOther(lines, i, section);
        GroupsInOrder(lines, i + 1, section);
      }
    }
  }

  /** Each entry is opened by an entry line and holds that line's text followed by
      its continuation lines. */
  lemma {:induction false} GroupsTexts(lines: seq<string>, i: nat, section: Option<string>)
    requires i <= |lines|
    ensures var g := GroupsFrom(lines, i, section);
      forall k :: 0 <= k < |g| ==>
        EntryStart(Strip(lines[g[k].line])).Some?
        && g[k].entryNum == EntryStart(Strip(lines[g[k].line])).value.0
        && g[k].content == EntryText(lines, g[k].line)
    decreases |lines| - i
  {
    if i < |lines| {
      var line := Strip(lines[i]);
      if IsHeader(line) {
        GroupsFromHeader(lines, i, section);
        GroupsTexts(lines, i + 1, Some(HeaderName(line)));
      } else if EntryStart(line).Some? {
        GroupsFromEntry(lines, i, section);
        GroupsTexts(lines, ContinuationEnd(lines, i + 1), section);
      } else {
        GroupsFromOther(lines, i, section);
        GroupsTexts(lines, i + 1, section);
      }
    }
  }

  /** Every entry of `g` is in the section of the latest header above its line. */
  predicate InTheirSections(lines: seq<string>, g: seq<RawEntry>) {
    forall k :: 0 <= k < |g| ==> g[k].line <= |lines| && g[k].section == SectionBefore(lines, g[k].line)
  }

  /** An entry opened at line `i` in the section of the latest header above it,
      before entries from the lines after its continuation that are in theirs. */
  lemma EntryInItsSection(lines: seq<string>, i: nat, section: Option<string>)
    requires i < |lines| && !IsHeader(Strip(lines[i])) && EntryStart(Strip(lines[i])).Some?
    requires section == SectionBefore(lines, i)
    requires InTheirSections(lines, GroupsFrom(lines, ContinuationEnd(lines, i + 1), section))
    ensures InTheirSections(lines, GroupsFrom(lines, i, section))
  {
    GroupsFromEntry(lines, i, section);
  }

  /** The section after line `i`: the one it names when it is a header, the one
      before it otherwise. */
  lemma SectionAfter(lines: seq<string>, i: nat)
    requires i < |lines|
    ensures SectionBefore(lines, i + 1)
            == if IsHeader(Strip(lines[i])) then Some(HeaderName(Strip(lines[i]))) else SectionBefore(lines, i)
  {
  }

  /** Each entry sits in the section of the latest header above it. */
  lemma {:induction false} GroupsSections(lines: seq<string>, i: nat, section: Option<string>)
    requires i <= |lines|
    requires section == SectionBefore(lines, i)
    ensures InTheirSections(lines, GroupsFrom(lines, i, section))
    decreases |lines| - i
  {
    if i < |lines| {
      var line := Strip(lines[i]);
      if IsHeader(line) {
        var next := Some(HeaderName(line));
        assert next == SectionBefore(lines, i + 1) by {
          SectionAfter(lines, i);
        }
        GroupsSections(lines, i + 1, next);
        assert GroupsFrom(lines, i, section) == GroupsFrom(lines, i + 1, next) by {
          GroupsFromHeader(lines, i, section);
        }
      } else if EntryStart(line).Some? {
        var j := ContinuationEnd(lines, i + 1);
        assert section == SectionBefore(lines, j) by {
          SectionCarriesOver(lines, i + 1, j);
        }
        GroupsSections(lines, j, section);
        EntryInItsSection(lines, i, section);
      } else {
        assert section == SectionBefore(lines, i + 1) by {
          SectionAfter(lines, i);
        }
        GroupsSections(lines, i + 1, section);
        assert GroupsFrom(lines, i, section) == GroupsFrom(lines, i + 1, section) by {
          GroupsFromOther(lines, i, section);
        }
      }
    }
  }

  /** Continuation lines hold no header, so the section is the same after them. */
  lemma {:induction false} SectionCarriesOver(lines: seq<string>, a: nat, b: nat)
    requires 1 <= a <= b <= |lines|
    requires forall t :: a <= t < b ==> IsContinuation(lines[t])
    requires !IsHeader(Strip(lines[a - 1]))
    ensures SectionBefore(lines, b) == SectionBefore(lines, a - 1)
    decreases b - a
  {
    if a < b {
      if IsHeader(Strip(lines[b - 1])) {
        HeaderIsNotContinuation(lines[b - 1]);
      }
      SectionCarriesOver(lines, a, b - 1);
    }
  }

  /** The whole file: entries in order, each in the section of the latest header
      above it, with the text of its opening line followed by its continuation
      lines. */
  lemma FileOrderAndSections(lines: seq<string>)
    ensures var g := Groups(lines);
      && (forall k :: 0 <= k < |g| ==>
            EntryStart(Strip(lines[g[k].line])).Some?
            && g[k].entryNum == EntryStart(Strip(lines[g[k].line])).value.0
            && g[k].content == EntryText(lines, g[k].line))
      && (forall k :: 0 <= k < |g| ==> g[k].section == SectionBefore(lines, g[k].line))
      && (forall k, l :: 0 <= k < l < |g| ==> g[k].line < g[l].line)
  {
    var g := Groups(lines);
    assert g == GroupsFrom(lines, 0, None);
    GroupsTexts(lines, 0, None);
    GroupsSections(lines, 0, None);
    GroupsInOrder(lines, 0, None);
  }
}
