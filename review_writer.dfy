/**
 The manual-review file that phase 1 leaves for the user.

 Every entry flagged for review gets a block: a `### Paper N:` header, the entry
 as written, one six-line checkbox option per OpenAlex candidate, then the
 "Enter DOI manually" and "None of these" boxes. The file is the list of lines
 the writer appends, joined with newlines. The percentage shown next to each
 candidate is Python float formatting of the title similarity; here it is an
 opaque function `percent` of the two titles compared.
 */
module ReviewWriter {
  import opened Text
  import opened Records

  /** What the "Enter DOI manually" box shows until the user fills it in. */
  const DoiPlaceholder: string := "[ENTER DOI HERE]"

  // Dafny shows the verifier the characters of a string literal only when it is
  // at most 32 characters long, and the review-file proofs read these lines
  // character by character, so longer lines are concatenations of shorter literals.

  const Preamble: seq<string> := [
    "# Manual Review Required",
    "",
    "Please review the entries below " + "and make your selections.",
    "",
    "## Instructions",
    "- Change `- [ ]` to `- [x]` to " + "select an option",
    "- Select **only one** option " + "per paper (or 'None of these')",
    "- If you select 'Enter DOI " + "manually', fill in the DOI " + "field below it",
    "- Save this file when done, " + "then run: `python " + "verify_publications.py --phase2`",
    "",
    "---",
    ""
  ]

  const NothingToReview: string :=
    "**No papers need manual " + "review!** All papers were " + "matched with high confidence."

  function CountText(n: nat): string {
    "**" + NatToString(n) + " papers need your review:**"
  }

  /** The count line as appended; its trailing newline yields an empty line in the file. */
  function CountLine(n: nat): string {
    CountText(n) + "\n"
  }

  /** The entries flagged `needs_review`, in list order. */
  function Flagged(pubs: seq<Publication>): (r: seq<Publication>)
    decreases |pubs|
    ensures |r| <= |pubs|
    ensures forall k :: 0 <= k < |r| ==> r[k].needsReview
  {
    if pubs == [] then []
    else
      var init := Flagged(pubs[..|pubs| - 1]);
      if pubs[|pubs| - 1].needsReview then init + [pubs[|pubs| - 1]] else init
  }

  /** Exactly the flagged entries of the list get a block. */
  lemma {:induction false} FlaggedAreTheReviewEntries(pubs: seq<Publication>, p: Publication)
    ensures p in Flagged(pubs) <==> p in pubs && p.needsReview
    decreases |pubs|
  {
    if pubs != [] {
      var init := pubs[..|pubs| - 1];
      assert pubs == init + [pubs[|pubs| - 1]];
      FlaggedAreTheReviewEntries(init, p);
    }
  }

  function DisplayTitle(pub: Publication): string {
    OrElse(pub.title, "Unknown title")
  }

  /** `### Paper N: ` and the title cut to 60 characters, marked `...` when cut. */
  function HeaderLine(pub: Publication): string {
    var title := DisplayTitle(pub);
    "### Paper " + NatToString(pub.entryNum) + ": " + Take(title, 60)
      + (if |title| > 60 then "..." else "")
  }

  function YearText(year: Option<nat>): string {
    if year.Some? && year.value != 0 then NatToString(year.value) else "Unknown"
  }

  /** The header and the entry as written, quoted. */
  function Intro(pub: Publication): seq<string> {
    var title := DisplayTitle(pub);
    [ HeaderLine(pub),
      "",
      "**Original entry:**",
      "> " + OrElse(pub.authors, "Unknown authors") + " (" + YearText(pub.year) + ")",
      "> " + title ]
    + (if Truthy(pub.journal) then ["> *" + pub.journal.value + "*"] else [])
    + (if Truthy(pub.url) then ["> [Original link](" + pub.url.value + ")"] else [])
    + [""]
  }

  function CandidateYear(year: Option<int>): string {
    if year.Some? && year.value != 0 then IntToString(year.value) else "?"
  }

  /** The first three author names, with ` et al.` when there are more. */
  function CandidateAuthors(authors: seq<string>): string {
    Join(", ", Take(authors, 3)) + (if |authors| > 3 then " et al." else "")
  }

  /** An unticked checkbox line. */
  function Box(caption: string): string {
    "- [ ] " + caption
  }

  /** An indented detail line under a checkbox. */
  function Detail(text: string): string {
    "      - " + text
  }

  /** The label of option `num` and its similarity. */
  function OptionLabel(num: nat, similarity: string): string {
    "**Option " + NatToString(num) + ":** (" + similarity + " match)"
  }

  function OptionLine(num: nat, similarity: string): string {
    Box(OptionLabel(num, similarity))
  }

  function DoiLine(doi: string): string {
    Detail("DOI: `" + doi + "`")
  }

  /** The six lines of option `num`: checkbox, title, authors, year and venue, DOI, blank. */
  function CandidateLines(title: string, num: nat, cand: Work, percent: (string, string) -> string): seq<string> {
    var candTitle := OrElse(cand.title, "Unknown");
    [ OptionLine(num, percent(title, candTitle)),
      Detail("Title: " + candTitle),
      Detail("Authors: " + CandidateAuthors(cand.authors)),
      Detail("Year: " + CandidateYear(cand.publicationYear) + " | Journal: " + OrElse(cand.journal, "Unknown venue")),
      DoiLine(OrElse(cand.doi, "No DOI")),
      "" ]
  }

  /** The options for `cands`, numbered from 1. */
  function OptionLines(title: string, cands: seq<Work>, percent: (string, string) -> string): (r: seq<string>)
    decreases |cands|
    ensures |r| == 6 * |cands|
  {
    if cands == [] then []
    else
      var n := |cands|;
      OptionLines(title, cands[..n - 1], percent) + CandidateLines(title, n, cands[n - 1], percent)
  }

  function Choices(pub: Publication, percent: (string, string) -> string): seq<string> {
    if pub.candidates != [] then
      ["**Select one option:**", ""] + OptionLines(DisplayTitle(pub), pub.candidates, percent)
    else
      ["**No candidate matches found in " + "OpenAlex.**", ""]
  }

  const ManualLabel: string := "**Enter DOI manually:**"
  const NoneLabel: string := "**None of these** (keep " + "original entry unchanged)"

  /** The two boxes every block ends with, and the separator. */
  const Closing: seq<string> := [
    Box(ManualLabel),
    DoiLine(DoiPlaceholder),
    "",
    Box(NoneLabel),
    "",
    "---",
    ""
  ]

  function Block(pub: Publication, percent: (string, string) -> string): seq<string> {
    Intro(pub) + Choices(pub, percent) + Closing
  }

  /** The block of each entry, for a given similarity formatting. */
  function BlockOf(percent: (string, string) -> string): Publication -> seq<string> {
    p => Block(p, percent)
  }

  /** The blocks of `ps`, one after another. */
  function Blocks(ps: seq<Publication>, percent: (string, string) -> string): seq<string> {
    FlatMap(ps, BlockOf(percent))
  }

  /** The lines as the writer appends them. */
  function ReviewLines(pubs: seq<Publication>, percent: (string, string) -> string): seq<string> {
    var flagged := Flagged(pubs);
    if flagged == [] then Preamble + [NothingToReview]
    else Preamble + [CountLine(|flagged|)] + Blocks(flagged, percent)
  }

  function ReviewText(pubs: seq<Publication>, percent: (string, string) -> string): string {
    Join("\n", ReviewLines(pubs, percent))
  }

  /** Appends the options for `cands` to `lines`, one candidate per iteration. */
  method AppendOptions(lines: seq<string>, title: string, cands: seq<Work>, percent: (string, string) -> string)
    returns (r: seq<string>)
    ensures r == lines + OptionLines(title, cands, percent)
  {
    r := lines;
    var i := 0;
    while i < |cands|
      invariant i <= |cands|
      invariant r == lines + OptionLines(title, cands[..i], percent)
    {
      var option := CandidateLines(title, i + 1, cands[i], percent);
      assert cands[..i + 1][..i] == cands[..i];
      assert OptionLines(title, cands[..i + 1], percent) == OptionLines(title, cands[..i], percent) + option;
      AppendAssociative(lines, OptionLines(title, cands[..i], percent), option);
      r := r + option;
      i := i + 1;
    }
    assert cands[..i] == cands;
  }

  /** Appends the block of one flagged entry to `lines`. */
  method AppendBlock(lines: seq<string>, pub: Publication, percent: (string, string) -> string)
    returns (r: seq<string>)
    ensures r == lines + Block(pub, percent)
  {
    var intro := Intro(pub);
    var choices: seq<string>;
    if pub.candidates != [] {
      choices := AppendOptions(["**Select one option:**", ""], DisplayTitle(pub), pub.candidates, percent);
    } else {
      choices := ["**No candidate matches found in " + "OpenAlex.**", ""];
    }
    assert choices == Choices(pub, percent);
    r := lines + intro + choices + Closing;
    AppendAssociative(lines, intro, choices);
    AppendAssociative(lines, intro + choices, Closing);
  }

  /** Appends the blocks of `flagged` to `head`, one entry per iteration. */
  method AppendBlocks(head: seq<string>, flagged: seq<Publication>, percent: (string, string) -> string)
    returns (output: seq<string>)
    ensures output == head + Blocks(flagged, percent)
  {
    output := head;
    var k := 0;
    while k < |flagged|
      invariant k <= |flagged|
      invariant output == head + Blocks(flagged[..k], percent)
    {
      output := AppendBlock(output, flagged[k], percent);
      FlatMapOfPrefix(flagged, k, BlockOf(percent));
      AppendAssociative(head, Blocks(flagged[..k], percent), Block(flagged[k], percent));
      k := k + 1;
    }
    assert flagged[..k] == flagged;
  }

  /** Builds the review file the way the writer does, block by block. */
  method GenerateManualReview(pubs: seq<Publication>, percent: (string, string) -> string) returns (text: string)
    ensures text == ReviewText(pubs, percent)
  {
    var output := Preamble;
    var flagged := Flagged(pubs);
    if flagged == [] {
      output := output + [NothingToReview];
    } else {
      output := AppendBlocks(output + [CountLine(|flagged|)], flagged, percent);
    }
    text := Join("\n", output);
  }
}
