/**
 The review file, written and then read back.

 Left untouched, the file the writer produces selects nothing. Ticking the box of
 option k in the block of entry N (changing `- [ ]` to `- [x]`) makes the reader
 return exactly {N: option k}; ticking "Enter DOI manually" and typing a DOI into
 its field returns {N: that DOI} when the DOI is acceptable and nothing otherwise;
 ticking "None of these" returns {N: none}. These hold as long as the entries and
 candidates put no line break into the file.
 */
module ReviewRoundTrip {
  import opened Text
  import opened Records
  import opened ReviewWriter
  import opened ReviewReader

  // ---------------------------------------------------------------------------
  // Lines the reader passes over

  /** The user's edit: the box at the head of the line ticked. */
  function Ticked(line: string): string
    requires |line| >= 5
  {
    "- [x]" + line[5..]
  }

  /** The shapes of line the writer emits other than headers: too short to matter,
      opening with a character other than blank, `#` or a box being ticked, or an
      indented `- ` detail whose text does not open with `[`. */
  predicate Passive(line: string) {
    |line| < 5
    || (!IsSpace(line[0]) && line[0] != '#' && (line[0] != '-' || line[2] != '[' || line[3] == ' '))
    || (|line| > 8 && (forall k :: 0 <= k < 6 ==> line[k] == ' ') && line[6] == '-' && line[8] != '[')
  }

  /** The reader passes over a passive line: it is no header and no ticked box. */
  lemma PassiveIsInert(line: string)
    requires Passive(line)
    ensures PaperHeader(line).None? && !IsChecked(Strip(line))
  {
    if |line| < 5 {
    } else if !IsSpace(line[0]) && line[0] != '#' && (line[0] != '-' || line[2] != '[' || line[3] == ' ') {
      DiffersAt(line, "### Paper ", 0);
      assert SkipSpaces(line, 0) == 0;
      assert line[0..] == line;
      var r := Strip(line);
      assert r == line[..|r|] && |r| > 0;
      var k := if line[0] != '-' then 0 else if line[2] != '[' then 2 else 3;
      if k < |r| {
        assert r[k] == line[k];
      }
      DiffersAt(r, "- [x]", k);
      DiffersAt(r, "- [X]", k);
    } else {
      var w := 6;
      DiffersAt(line, "### Paper ", 0);
      SkipSpacesPrefix(line[..w], line[w..], 0);
      assert line[..w] + line[w..] == line;
      var r := Strip(line);
      assert r == RStrip(line[w..]);
      assert r == line[w..][..|r|] && |r| > 0;
      if 2 < |r| {
        assert r[2] == line[w + 2];
      }
      DiffersAt(r, "- [x]", 2);
      DiffersAt(r, "- [X]", 2);
    }
  }

  lemma PassiveObserved(lines: seq<string>, i: nat)
    requires i < |lines| && Passive(lines[i])
    ensures Observe(lines, i) == Other
  {
    PassiveIsInert(lines[i]);
  }

  lemma BoxPassive(caption: string)
    ensures Passive(Box(caption))
  {
    var line := Box(caption);
    assert line[0] == '-' && line[3] == ' ';
  }

  lemma DetailPassive(text: string)
    requires text != [] && text[0] != '['
    ensures Passive(Detail(text))
  {
    var line := Detail(text);
    assert forall k :: 0 <= k < 6 ==> line[k] == ' ';
    assert line[6] == '-' && line[8] == text[0];
  }

  // ---------------------------------------------------------------------------
  // The block of one entry

  /** `### Paper N:` reads back as N. */
  lemma HeaderParses(n: nat, line: string)
    requires StartsWith(line, "### Paper " + NatToString(n) + ":")
    ensures PaperHeader(line) == Some(n)
  {
    var digits := NatToString(n);
    var e := 10 + |digits|;
    var prefix := "### Paper " + digits + ":";
    assert line[..|prefix|] == prefix;
    assert line[..10] == prefix[..10] == "### Paper ";
    assert line[e] == prefix[e] == ':';
    assert forall k :: 10 <= k < e ==> line[k] == prefix[k] == digits[k - 10];
    assert SkipDigits(line, 10) == e;
    assert line[10..e] == digits;
    NatToStringRoundTrip(n);
  }

  lemma HeaderLineParses(pub: Publication)
    ensures PaperHeader(HeaderLine(pub)) == Some(pub.entryNum)
  {
    var line := HeaderLine(pub);
    var prefix := "### Paper " + NatToString(pub.entryNum) + ":";
    assert line[..|prefix|] == prefix;
    HeaderParses(pub.entryNum, line);
  }

  lemma IntroPassive(pub: Publication)
    ensures forall m :: 1 <= m < |Intro(pub)| ==> Passive(Intro(pub)[m])
  {
  }

  lemma CandidateLinesPassive(title: string, num: nat, cand: Work, percent: (string, string) -> string)
    ensures forall m :: 0 <= m < 6 ==> Passive(CandidateLines(title, num, cand, percent)[m])
  {
    var candTitle := OrElse(cand.title, "Unknown");
    BoxPassive(OptionLabel(num, percent(title, candTitle)));
    DetailPassive("Title: " + candTitle);
    DetailPassive("Authors: " + CandidateAuthors(cand.authors));
    DetailPassive("Year: " + CandidateYear(cand.publicationYear) + " | Journal: " + OrElse(cand.journal, "Unknown venue"));
    DetailPassive("DOI: `" + OrElse(cand.doi, "No DOI") + "`");
  }

  lemma {:induction false} OptionLinesPassive(title: string, cands: seq<Work>, percent: (string, string) -> string)
    ensures forall m :: 0 <= m < |OptionLines(title, cands, percent)| ==> Passive(OptionLines(title, cands, percent)[m])
    decreases |cands|
  {
    if cands != [] {
      var n := |cands|;
      var init := OptionLines(title, cands[..n - 1], percent);
      var last := CandidateLines(title, n, cands[n - 1], percent);
      OptionLinesPassive(title, cands[..n - 1], percent);
      CandidateLinesPassive(title, n, cands[n - 1], percent);
      assert OptionLines(title, cands, percent) == init + last;
    }
  }

  /** The options are those of all candidates but the last, then the last one's. */
  lemma OptionLinesSnoc(title: string, cands: seq<Work>, percent: (string, string) -> string)
    requires cands != []
    ensures var n := |cands|;
      OptionLines(title, cands, percent)
      == OptionLines(title, cands[..n - 1], percent) + CandidateLines(title, n, cands[n - 1], percent)
  {
  }

  /** The first of an option's lines is its box. */
  lemma CandidateLinesBox(title: string, num: nat, cand: Work, percent: (string, string) -> string)
    ensures CandidateLines(title, num, cand, percent)[0] == OptionLine(num, percent(title, OrElse(cand.title, "Unknown")))
  {
  }

  /** Line `6(k - 1)` of the options is the box of option `k`. */
  lemma {:induction false} OptionLinesBox(title: string, cands: seq<Work>, percent: (string, string) -> string, k: nat)
    requires 1 <= k <= |cands|
    ensures OptionLines(title, cands, percent)[6 * (k - 1)]
            == OptionLine(k, percent(title, OrElse(cands[k - 1].title, "Unknown")))
    decreases |cands|
  {
    var n := |cands|;
    var init := OptionLines(title, cands[..n - 1], percent);
    var last := CandidateLines(title, n, cands[n - 1], percent);
    OptionLinesSnoc(title, cands, percent);
    if k < n {
      OptionLinesBox(title, cands[..n - 1], percent, k);
      assert cands[..n - 1][k - 1] == cands[k - 1];
      IndexLeft(init, last, 6 * (k - 1));
    } else {
      assert k == n;
      IndexRight(init, last, 6 * (k - 1));
      CandidateLinesBox(title, n, cands[n - 1], percent);
    }
  }

  lemma ClosingPassive()
    ensures forall m :: 0 <= m < |Closing| ==> Passive(Closing[m])
  {
    BoxPassive(ManualLabel);
    DetailPassive("DOI: `" + DoiPlaceholder + "`");
    BoxPassive(NoneLabel);
  }

  /** Where the `- [ ]` line of option `k` sits in the block. */
  function OptionIndex(pub: Publication, k: nat): nat
    requires 1 <= k
  {
    |Intro(pub)| + 2 + 6 * (k - 1)
  }

  /** Where the "Enter DOI manually" box sits in the block. */
  function ManualIndex(pub: Publication, percent: (string, string) -> string): nat {
    |Intro(pub)| + |Choices(pub, percent)|
  }

  /** A block as the reader sees it: a header naming `n`, then passive lines. */
  predicate Shaped(b: seq<string>, n: nat) {
    |b| > 1 && PaperHeader(b[0]) == Some(n) && forall m :: 1 <= m < |b| ==> Passive(b[m])
  }

  lemma BlockShape(pub: Publication, percent: (string, string) -> string)
    ensures Shaped(Block(pub, percent), pub.entryNum)
  {
    var b := Block(pub, percent);
    var intro := Intro(pub);
    var choices := Choices(pub, percent);
    assert b == intro + choices + Closing;
    assert b[0] == intro[0] == HeaderLine(pub);
    HeaderLineParses(pub);
    IntroPassive(pub);
    ClosingPassive();
    if pub.candidates != [] {
      OptionLinesPassive(DisplayTitle(pub), pub.candidates, percent);
    }
    assert forall m :: 0 <= m < |choices| ==> Passive(choices[m]);
  }

  lemma OptionLineOfBlock(pub: Publication, percent: (string, string) -> string, k: nat)
    requires 1 <= k <= |pub.candidates|
    ensures var b := Block(pub, percent);
            OptionIndex(pub, k) < |b|
            && b[OptionIndex(pub, k)]
               == OptionLine(k, percent(DisplayTitle(pub), OrElse(pub.candidates[k - 1].title, "Unknown")))
  {
    OptionLinesBox(DisplayTitle(pub), pub.candidates, percent, k);
    OptionInBlock(Intro(pub), OptionLines(DisplayTitle(pub), pub.candidates, percent), 6 * (k - 1));
  }

  /** Line `i` of the options, in a block with candidates. */
  lemma OptionInBlock(intro: seq<string>, options: seq<string>, i: nat)
    requires i < |options|
    ensures var b := intro + (["**Select one option:**", ""] + options) + Closing;
      |intro| + 2 + i < |b| && b[|intro| + 2 + i] == options[i]
  {
  }

  lemma ClosingOfBlock(pub: Publication, percent: (string, string) -> string)
    ensures var b := Block(pub, percent);
            var i := ManualIndex(pub, percent);
            i + 7 == |b| && b[i] == Box(ManualLabel) && b[i + 1] == DoiLine(DoiPlaceholder) && b[i + 3] == Box(NoneLabel)
  {
  }

  // ---------------------------------------------------------------------------
  // Ticked boxes

  /** Ticking a box leaves its caption, stripped, as the selection text. */
  lemma TickedBoxText(caption: string)
    requires caption != [] && !IsSpace(caption[0]) && !IsSpace(caption[|caption| - 1])
    ensures var line := Ticked(Box(caption));
            PaperHeader(line).None? && IsChecked(Strip(line)) && SelectionText(line) == caption
  {
    var line := Ticked(Box(caption));
    assert line == "- [x] " + caption;
    DiffersAt(line, "### Paper ", 0);
    StripTrimmed(line);
    assert line[..5] == "- [x]";
    assert line[5..] == " " + caption;
    StripPadded(" ", caption);
  }

  /** The label of option `k` names `k` as its leftmost `Option` number. */
  lemma OptionLabelNumber(k: nat, similarity: string)
    ensures var t := OptionLabel(k, similarity);
            t != [] && !IsSpace(t[0]) && !IsSpace(t[|t| - 1])
            && Contains(t, "Option") && OptionNumber(t) == Some(k)
  {
    var t := OptionLabel(k, similarity);
    var digits := NatToString(k);
    var e := 9 + |digits|;
    assert t == "**Option " + digits + ":** (" + similarity + " match)";
    assert t[|t| - 1] == ')';
    assert OccursAt(t, "Option", 2);
    assert OptionAt(t, 2) by {
      assert t[2..9] == "Option ";
      assert t[9] == digits[0];
    }
    assert forall q: nat :: q < 2 ==> !OptionAt(t, q) by {
      forall q: nat | q < 2
        ensures !OptionAt(t, q)
      {
        assert t[q] == '*';
      }
    }
    assert forall m :: 9 <= m < e ==> t[m] == digits[m - 9];
    assert t[e] == ':';
    assert SkipDigits(t, 9) == e;
    assert t[9..e] == digits;
    NatToStringRoundTrip(k);
  }

  /** A ticked option box records that option. */
  lemma TickedOptionObserved(lines: seq<string>, i: nat, k: nat, similarity: string)
    requires i < |lines| && lines[i] == Ticked(OptionLine(k, similarity)) && '\n' !in OptionLine(k, similarity)
    ensures PaperHeader(lines[i]).None? && '\n' !in lines[i]
    ensures Observations(lines)[i] == Tick(ChosenOption(k))
  {
    ObservationAt(lines, i);
    OptionLabelNumber(k, similarity);
    TickedBoxText(OptionLabel(k, similarity));
    TickedNoBreak(OptionLine(k, similarity));
  }

  /** Where the writer's DOI line puts the label and the back-quotes around `doi`. */
  lemma DoiLineShape(doi: string)
    ensures var line := DoiLine(doi);
            |line| == 15 + |doi| && (forall m :: 0 <= m < 8 ==> line[m] != 'D')
            && line[8..12] == "DOI:" && line[12] == ' ' && line[13] == '`'
            && line[14..14 + |doi|] == doi && line[14 + |doi|] == '`'
  {
    var line := DoiLine(doi);
    assert line == "      - DOI: `" + doi + "`";
  }

  /** A line of that shape yields `doi` as its DOI field. */
  lemma DoiFieldOfShape(line: string, doi: string)
    requires |line| == 15 + |doi| && doi != [] && '`' !in doi
    requires forall m :: 0 <= m < 8 ==> line[m] != 'D'
    requires line[8..12] == "DOI:" && line[12] == ' ' && line[13] == '`'
    requires line[14..14 + |doi|] == doi && line[14 + |doi|] == '`'
    ensures DoiField(line) == Some(doi)
  {
    var e := 14 + |doi|;
    assert SkipSpaces(line, 12) == 13;
    assert forall m :: 14 <= m < e ==> line[m] == doi[m - 14];
    SkipNotInStopsAt(line, 14, e, {'`'});
    assert DoiFieldAt(line, 8);
    forall q: nat | q < 8
      ensures !DoiFieldAt(line, q)
    {
      assert line[q..q + 4][0] == line[q];
    }
    DoiFieldFrom(line, 8);
  }

  /** The DOI line the writer emits, with `doi` typed in, yields `doi`. */
  lemma DoiLineField(doi: string)
    requires doi != [] && '`' !in doi
    ensures DoiField(DoiLine(doi)) == Some(doi)
  {
    DoiLineShape(doi);
    DoiFieldOfShape(DoiLine(doi), doi);
  }

  lemma ManualLabelLacksOption()
    ensures !Contains(ManualLabel, "Option")
  {
    assert 'p' !in ManualLabel;
    MissingCharNotContained(ManualLabel, "Option", 'p');
  }

  lemma ManualLabelNamesEntry()
    ensures Contains(ManualLabel, "Enter DOI manually")
  {
    assert OccursAt(ManualLabel, "Enter DOI manually", 2);
  }

  lemma ManualLabelText()
    ensures ManualLabel != [] && !IsSpace(ManualLabel[0]) && !IsSpace(ManualLabel[|ManualLabel| - 1])
    ensures !Contains(ManualLabel, "Option") && Contains(ManualLabel, "Enter DOI manually")
  {
    ManualLabelLacksOption();
    ManualLabelNamesEntry();
  }

  /** Ticking "Enter DOI manually" with `doi` in the field below records the stripped
      DOI when it is acceptable, and nothing otherwise. */
  lemma TickedManualObserved(lines: seq<string>, i: nat, doi: string)
    requires i + 1 < |lines| && lines[i] == Ticked(Box(ManualLabel)) && lines[i + 1] == DoiLine(doi)
    requires '\n' !in Box(ManualLabel)
    requires doi != [] && '`' !in doi
    ensures PaperHeader(lines[i]).None? && '\n' !in lines[i]
    ensures Observations(lines)[i] == if ValidManualDoi(Strip(doi)) then Tick(ManualDoi(Strip(doi))) else Other
  {
    ObservationAt(lines, i);
    ManualLabelText();
    TickedBoxText(ManualLabel);
    TickedNoBreak(Box(ManualLabel));
    DoiLineField(doi);
    assert FirstDoiLine(lines, i, i + 1);
  }

  lemma NoneLabelLacks()
    ensures 'O' !in NoneLabel && 'E' !in NoneLabel
  {
    assert 'O' !in "**None of these**" && 'E' !in "**None of these**";
  }

  lemma NoneLabelText()
    ensures NoneLabel != [] && !IsSpace(NoneLabel[0]) && !IsSpace(NoneLabel[|NoneLabel| - 1])
    ensures !Contains(NoneLabel, "Option") && !Contains(NoneLabel, "Enter DOI manually")
    ensures Contains(NoneLabel, "None of these")
  {
    NoneLabelLacks();
    MissingCharNotContained(NoneLabel, "Option", 'O');
    MissingCharNotContained(NoneLabel, "Enter DOI manually", 'E');
    assert NoneLabel[2..15] == "**None of these**"[2..15];
    assert OccursAt(NoneLabel, "None of these", 2);
  }

  /** Ticking "None of these" records it. */
  lemma TickedNoneObserved(lines: seq<string>, i: nat)
    requires i < |lines| && lines[i] == Ticked(Box(NoneLabel)) && '\n' !in Box(NoneLabel)
    ensures PaperHeader(lines[i]).None? && '\n' !in lines[i]
    ensures Observations(lines)[i] == Tick(NoneOfThese)
  {
    ObservationAt(lines, i);
    NoneLabelText();
    TickedBoxText(NoneLabel);
    TickedNoBreak(Box(NoneLabel));
  }
  // ---------------------------------------------------------------------------
  // The reading loop over what it observes

  /** Every line in `i..j` is observed as nothing. */
  predicate Quiet(obs: seq<Observation>, i: nat, j: nat) {
    forall m :: i <= m < j && m < |obs| ==> obs[m].Other?
  }

  /** No line in `i..j` is observed as a header. */
  predicate NoHeaders(obs: seq<Observation>, i: nat, j: nat) {
    forall m :: i <= m < j && m < |obs| ==> !obs[m].Header?
  }

  /** A block of `len` lines at `s` as observed: the header of `n`, then nothing. */
  predicate BlockSeen(obs: seq<Observation>, s: nat, len: nat, n: nat) {
    1 < len && s + len <= |obs| && obs[s] == Header(n) && Quiet(obs, s + 1, s + len)
  }

  /** Lines observed as nothing leave the loop's state as it was. */
  lemma {:induction false} RunSkipsOther(obs: seq<Observation>, i: nat, j: nat, cur: Option<nat>, acc: map<nat, Selection>)
    requires i <= j <= |obs|
    requires Quiet(obs, i, j)
    ensures Run(obs, i, cur, acc) == Run(obs, j, cur, acc)
    decreases j - i
  {
    if i < j {
      RunSkipsOther(obs, i + 1, j, cur, acc);
    }
  }

  /** Before any header, lines that are no header leave the loop's state as it was. */
  lemma {:induction false} RunSkipsHeaderless(obs: seq<Observation>, i: nat, j: nat, acc: map<nat, Selection>)
    requires i <= j <= |obs|
    requires NoHeaders(obs, i, j)
    ensures Run(obs, i, None, acc) == Run(obs, j, None, acc)
    decreases j - i
  {
    if i < j {
      RunSkipsHeaderless(obs, i + 1, j, acc);
    }
  }

  /** A block from `s` to `e`: its header makes `n` current, its line `t` records
      what it observes, and nothing else happens. */
  lemma RunThroughBlock(obs: seq<Observation>, s: nat, t: nat, e: nat, n: nat, cur: Option<nat>, acc: map<nat, Selection>)
    requires s < t < e <= |obs|
    requires obs[s] == Header(n) && !obs[t].Header?
    requires Quiet(obs, s + 1, t) && Quiet(obs, t + 1, e)
    ensures Run(obs, s, cur, acc) == Run(obs, e, Some(n), if obs[t].Tick? then acc[n := obs[t].selection] else acc)
  {
    var acc' := if obs[t].Tick? then acc[n := obs[t].selection] else acc;
    RunSkipsOther(obs, s + 1, t, Some(n), acc);
    RunSkipsOther(obs, t + 1, e, Some(n), acc');
  }

  // ---------------------------------------------------------------------------
  // From lines to observations

  /** What the reader observes of passive lines. */
  lemma PassiveRangeObserved(lines: seq<string>, i: nat, j: nat)
    requires i <= j <= |lines|
    requires forall m :: i <= m < j ==> Passive(lines[m])
    ensures Quiet(Observations(lines), i, j)
  {
    forall m | i <= m < j
      ensures Observations(lines)[m].Other?
    {
      ObservationAt(lines, m);
      PassiveObserved(lines, m);
    }
  }

  lemma HeaderObserved(lines: seq<string>, s: nat, n: nat)
    requires s < |lines| && PaperHeader(lines[s]) == Some(n)
    ensures Observations(lines)[s] == Header(n)
  {
    ObservationAt(lines, s);
  }

  lemma NoHeaderObserved(lines: seq<string>, s: nat)
    requires s < |lines| && PaperHeader(lines[s]).None?
    ensures !Observations(lines)[s].Header?
  {
    ObservationAt(lines, s);
  }

  /** No line of `head` is a header. */
  ghost predicate Headless(head: seq<string>) {
    forall m {:trigger PaperHeader(head[m])} :: 0 <= m < |head| ==> PaperHeader(head[m]).None?
  }

  lemma HeadlessObserved(lines: seq<string>, head: seq<string>)
    requires |head| <= |lines| && lines[..|head|] == head
    requires Headless(head)
    ensures NoHeaders(Observations(lines), 0, |head|)
  {
    forall m | 0 <= m < |head|
      ensures !Observations(lines)[m].Header?
    {
      assert lines[m] == head[m];
      ObservationAt(lines, m);
    }
  }

  /** What the reader observes of a shaped block at `s`. */
  lemma ShapedObserved(lines: seq<string>, s: nat, b: seq<string>, n: nat)
    requires s + |b| <= |lines| && lines[s..s + |b|] == b && Shaped(b, n)
    ensures BlockSeen(Observations(lines), s, |b|, n)
  {
    assert lines[s] == b[0];
    HeaderObserved(lines, s, n);
    assert forall m :: s < m < s + |b| ==> Passive(lines[m]) by {
      forall m | s < m < s + |b|
        ensures Passive(lines[m])
      {
        assert lines[m] == b[m - s];
      }
    }
    PassiveRangeObserved(lines, s + 1, s + |b|);
  }

  /** What the reader observes of an edited block at `s` that keeps its header and
      whose lines other than `s + idx` are passive. */
  lemma EditedBlockObserved(lines: seq<string>, s: nat, blk: seq<string>, idx: nat, n: nat)
    requires s + |blk| <= |lines| && lines[s..s + |blk|] == blk && 0 < idx < |blk|
    requires PaperHeader(blk[0]) == Some(n) && PaperHeader(blk[idx]).None?
    requires forall m :: 0 < m < |blk| && m != idx ==> Passive(blk[m])
    ensures var obs := Observations(lines);
            obs[s] == Header(n) && !obs[s + idx].Header?
            && Quiet(obs, s + 1, s + idx) && Quiet(obs, s + idx + 1, s + |blk|)
  {
    assert lines[s] == blk[0] && lines[s + idx] == blk[idx];
    HeaderObserved(lines, s, n);
    NoHeaderObserved(lines, s + idx);
    assert forall m :: s < m < s + |blk| && m != s + idx ==> Passive(lines[m]) by {
      forall m | s < m < s + |blk| && m != s + idx
        ensures Passive(lines[m])
      {
        assert lines[m] == blk[m - s];
      }
    }
    PassiveRangeObserved(lines, s + 1, s + idx);
    PassiveRangeObserved(lines, s + idx + 1, s + |blk|);
  }

  /** Every block `f` makes is shaped. */
  ghost predicate AllShaped(f: Publication -> seq<string>) {
    forall p {:trigger Shaped(f(p), p.entryNum)} :: Shaped(f(p), p.entryNum)
  }

  /** Untouched shaped blocks at `s` select nothing and leave the last of their
      entries current. */
  lemma {:induction false} RunLineBlocks(lines: seq<string>, s: nat, ps: seq<Publication>, f: Publication -> seq<string>,
                                         cur: Option<nat>, acc: map<nat, Selection>)
    requires AllShaped(f)
    requires s + |FlatMap(ps, f)| <= |lines| && lines[s..s + |FlatMap(ps, f)|] == FlatMap(ps, f)
    ensures Run(Observations(lines), s, cur, acc)
            == Run(Observations(lines), s + |FlatMap(ps, f)|, if ps == [] then cur else Some(ps[|ps| - 1].entryNum), acc)
    decreases |ps|
  {
    if ps != [] {
      var init := ps[..|ps| - 1];
      var pub := ps[|ps| - 1];
      var pre := FlatMap(init, f);
      var b := f(pub);
      assert FlatMap(ps, f) == pre + b;
      var whole := lines[s..s + |pre + b|];
      assert lines[s..s + |pre|] == whole[..|pre|];
      RunLineBlocks(lines, s, init, f, cur, acc);
      var t := s + |pre|;
      assert lines[t..t + |b|] == whole[|pre|..];
      ShapedObserved(lines, t, b, pub.entryNum);
      RunThroughBlock(Observations(lines), t, t + 1, t + |b|, pub.entryNum,
                      if init == [] then cur else Some(init[|init| - 1].entryNum), acc);
    }
  }

  /** Lines `head`, none a header, followed by the shaped blocks `f(p)` of `ps`, of
      which only the block of `ps[b]` is replaced by `blk`, keeping its header and
      leaving every line but `idx` passive: the reader records what that line shows,
      for that entry, and nothing else. */
  lemma RunEditedLines(head: seq<string>, ps: seq<Publication>, f: Publication -> seq<string>, b: nat,
                       blk: seq<string>, idx: nat)
    requires AllShaped(f)
    requires Headless(head)
    requires b < |ps| && 0 < idx < |blk|
    requires PaperHeader(blk[0]) == Some(ps[b].entryNum) && PaperHeader(blk[idx]).None?
    requires forall m :: 0 < m < |blk| && m != idx ==> Passive(blk[m])
    ensures var edited := head + FlatMap(ps[..b], f) + blk + FlatMap(ps[b + 1..], f);
            var ob := Observations(edited)[|head| + |FlatMap(ps[..b], f)| + idx];
            Selections(edited) == if ob.Tick? then map[ps[b].entryNum := ob.selection] else map[]
  {
    var before := ps[..b];
    var after := ps[b + 1..];
    var n := ps[b].entryNum;
    var pre := FlatMap(before, f);
    var post := FlatMap(after, f);
    var edited := head + pre + blk + post;
    var obs := Observations(edited);
    var h := |head|;
    var s := h + |pre|;
    var e := s + |blk|;
    var ob := obs[s + idx];
    var acc := if ob.Tick? then map[n := ob.selection] else map[];
    FourParts(head, pre, blk, post);
    HeadlessObserved(edited, head);
    RunSkipsHeaderless(obs, 0, h, map[]);
    RunLineBlocks(edited, h, before, f, None, map[]);
    EditedBlockObserved(edited, s, blk, idx, n);
    RunThroughBlock(obs, s, s + idx, e, n, if before == [] then None else Some(before[|before| - 1].entryNum), map[]);
    RunLineBlocks(edited, e, after, f, Some(n), acc);
    RunEnds(obs, e + |post|, if after == [] then Some(n) else Some(after[|after| - 1].entryNum), acc);
  }

  /** Past the last line the loop's selections are final. */
  lemma RunEnds(obs: seq<Observation>, i: nat, cur: Option<nat>, acc: map<nat, Selection>)
    requires i == |obs|
    ensures Run(obs, i, cur, acc) == acc
  {
  }

  // ---------------------------------------------------------------------------
  // The file

  /** The lines above the first block, or the whole file when nothing is flagged. */
  function Head(pubs: seq<Publication>): seq<string> {
    var flagged := Flagged(pubs);
    if flagged == [] then Preamble + [NothingToReview]
    else Preamble + [CountText(|flagged|), ""]
  }

  /** The lines of the file: the count line's own newline splits it in two. */
  function FileLines(pubs: seq<Publication>, percent: (string, string) -> string): seq<string> {
    Head(pubs) + Blocks(Flagged(pubs), percent)
  }

  /** A line that cannot be a header: one of its first three characters is not `#`. */
  predicate Unheaded(line: string) {
    |line| < 3 || line[0] != '#' || line[1] != '#' || line[2] != '#'
  }

  lemma UnheadedIsNoHeader(line: string)
    requires Unheaded(line)
    ensures PaperHeader(line).None?
  {
    if |line| >= 3 {
      var k := if line[0] != '#' then 0 else if line[1] != '#' then 1 else 2;
      DiffersAt(line, "### Paper ", k);
    }
  }

  lemma PreambleUnheaded()
    ensures forall m :: 0 <= m < |Preamble| ==> Unheaded(Preamble[m])
  {
    forall m | 0 <= m < |Preamble|
      ensures Unheaded(Preamble[m])
    {
      assert m in {0, 1, 2, 3, 4, 5, 6, 7, 8, 9, 10, 11};
    }
  }

  /** Nothing above the first block is a header. */
  lemma HeadNoHeaders(pubs: seq<Publication>)
    ensures Headless(Head(pubs))
  {
    var head := Head(pubs);
    var flagged := Flagged(pubs);
    PreambleUnheaded();
    forall m | 0 <= m < |head|
      ensures PaperHeader(head[m]).None?
    {
      if m < |Preamble| {
        assert head[m] == Preamble[m];
      } else if flagged == [] {
        assert head[m] == NothingToReview;
      } else {
        assert head[m] == CountText(|flagged|) || head[m] == "";
      }
      UnheadedIsNoHeader(head[m]);
    }
  }

  /** The text the writer produces is the file's lines joined with newlines. */
  lemma ReviewTextLines(pubs: seq<Publication>, percent: (string, string) -> string)
    ensures ReviewText(pubs, percent) == Join("\n", FileLines(pubs, percent))
  {
    var flagged := Flagged(pubs);
    if flagged != [] {
      var count := CountText(|flagged|);
      var blocks := Blocks(flagged, percent);
      assert blocks != [] by {
        FlatMapOfPrefix(flagged, 0, BlockOf(percent));
        FlatMapAppend(flagged[..1], flagged[1..], BlockOf(percent));
        assert flagged[..1] + flagged[1..] == flagged;
        BlockShape(flagged[0], percent);
      }
      JoinCountLine(Preamble, count, blocks);
    } else {
      assert FileLines(pubs, percent) == Preamble + [NothingToReview];
    }
  }

  /** Splitting the count line's trailing newline off into a line of its own joins the same. */
  lemma JoinCountLine(pre: seq<string>, count: string, rest: seq<string>)
    requires pre != [] && rest != []
    ensures Join("\n", pre + [count + "\n"] + rest) == Join("\n", pre + [count, ""] + rest)
  {
    JoinConcat("\n", pre + [count + "\n"], rest);
    JoinConcat("\n", pre, [count + "\n"]);
    JoinConcat("\n", pre + [count, ""], rest);
    JoinConcat("\n", pre, [count, ""]);
    assert Join("\n", [count, ""]) == count + "\n" + "";
    assert pre + [count, ""] + rest == (pre + [count, ""]) + rest;
  }

  predicate NoBreaks(lines: seq<string>) {
    forall m :: 0 <= m < |lines| ==> '\n' !in lines[m]
  }

  lemma NoBreaksUpdate(lines: seq<string>, i: nat, line: string)
    requires NoBreaks(lines) && i < |lines| && '\n' !in line
    ensures NoBreaks(lines[i := line])
  {
    var edited := lines[i := line];
    forall m | 0 <= m < |edited|
      ensures '\n' !in edited[m]
    {
      if m != i {
        assert edited[m] == lines[m];
      }
    }
  }

  lemma TickedNoBreak(line: string)
    requires |line| >= 5 && '\n' !in line
    ensures '\n' !in Ticked(line)
  {
    var t := Ticked(line);
    assert forall k :: 5 <= k < |t| ==> t[k] == line[k];
  }

  /** Lines without line breaks, joined, are read back line by line. */
  lemma ReadJoined(lines: seq<string>)
    requires |lines| >= 1 && NoBreaks(lines)
    ensures ReadSelections(Join("\n", lines)) == Selections(lines)
  {
    SplitJoinRoundTrip(lines, '\n');
  }

  /** Where the block of `ps[b]` starts, after `head` and the blocks before it. */
  function Start(head: seq<string>, ps: seq<Publication>, f: Publication -> seq<string>, b: nat): nat
    requires b <= |ps|
  {
    |head| + |FlatMap(ps[..b], f)|
  }

  /** `head` and the blocks of `ps`, seen around the block of `ps[b]`. */
  lemma LinesAround(head: seq<string>, ps: seq<Publication>, f: Publication -> seq<string>, b: nat)
    requires b < |ps|
    ensures head + FlatMap(ps, f) == head + FlatMap(ps[..b], f) + f(ps[b]) + FlatMap(ps[b + 1..], f)
  {
    FlatMapAround(ps, b, f);
  }

  /** Changing element `j` of the middle part changes that element of the whole. */
  lemma UpdateMiddle<T>(front: seq<T>, mid: seq<T>, back: seq<T>, j: nat, x: T)
    requires j < |mid|
    ensures (front + mid + back)[|front| + j := x] == front + mid[j := x] + back
  {
    assert (front + mid + back)[|front| + j := x] == front + mid[j := x] + back;
  }

  /** `head`, none a header, and the shaped blocks of `ps`, of which that of `ps[b]`
      is replaced by `blk`, which keeps the header and leaves every line but `idx`
      passive, read back as what line `idx` shows, for that entry, and nothing else. */
  lemma ReadEditedLines(head: seq<string>, ps: seq<Publication>, f: Publication -> seq<string>, b: nat,
                        blk: seq<string>, idx: nat)
    requires AllShaped(f)
    requires Headless(head)
    requires b < |ps| && 0 < idx < |blk|
    requires PaperHeader(blk[0]) == Some(ps[b].entryNum) && PaperHeader(blk[idx]).None?
    requires forall m :: 0 < m < |blk| && m != idx ==> Passive(blk[m])
    requires NoBreaks(head + FlatMap(ps[..b], f) + blk + FlatMap(ps[b + 1..], f))
    ensures var edited := head + FlatMap(ps[..b], f) + blk + FlatMap(ps[b + 1..], f);
            var i := Start(head, ps, f, b) + idx;
            i < |edited|
            && ReadSelections(Join("\n", edited))
               == if Observations(edited)[i].Tick? then map[ps[b].entryNum := Observations(edited)[i].selection] else map[]
  {
    var edited := head + FlatMap(ps[..b], f) + blk + FlatMap(ps[b + 1..], f);
    RunEditedLines(head, ps, f, b, blk, idx);
    ReadJoined(edited);
  }

  /** Line `idx` of the block of `ps[b]` is line `Start + idx` of the whole. */
  lemma LineOfBlock(head: seq<string>, ps: seq<Publication>, f: Publication -> seq<string>, b: nat, idx: nat)
    requires b < |ps| && idx < |f(ps[b])|
    ensures var lines := head + FlatMap(ps, f);
            Start(head, ps, f, b) + idx < |lines| && lines[Start(head, ps, f, b) + idx] == f(ps[b])[idx]
  {
    LinesAround(head, ps, f, b);
  }

  /** Replacing line `idx` of the block of `ps[b]` by a line that is no header reads
      back as what that line shows, for that entry, and nothing else. */
  lemma ReadEditedLine(head: seq<string>, ps: seq<Publication>, f: Publication -> seq<string>, b: nat,
                       idx: nat, line: string)
    requires AllShaped(f)
    requires Headless(head)
    requires b < |ps| && 0 < idx < |f(ps[b])|
    requires PaperHeader(line).None? && '\n' !in line
    requires NoBreaks(head + FlatMap(ps, f))
    ensures var lines := head + FlatMap(ps, f);
            var i := Start(head, ps, f, b) + idx;
            i < |lines| && lines[i] == f(ps[b])[idx]
            && var edited := lines[i := line];
               ReadSelections(Join("\n", edited))
               == if Observations(edited)[i].Tick? then map[ps[b].entryNum := Observations(edited)[i].selection] else map[]
  {
    var lines := head + FlatMap(ps, f);
    var blk := f(ps[b]);
    var front := head + FlatMap(ps[..b], f);
    var back := FlatMap(ps[b + 1..], f);
    var i := Start(head, ps, f, b) + idx;
    assert Shaped(blk, ps[b].entryNum);
    LinesAround(head, ps, f, b);
    assert lines == front + blk + back && i == |front| + idx;
    UpdateMiddle(front, blk, back, idx, line);
    NoBreaksUpdate(lines, i, line);
    ReadEditedLines(head, ps, f, b, blk[idx := line], idx);
  }

  /** The same for a line that is no header at `idx` followed by a passive line. */
  lemma ReadEditedPair(head: seq<string>, ps: seq<Publication>, f: Publication -> seq<string>, b: nat,
                       idx: nat, line: string, next: string)
    requires AllShaped(f)
    requires Headless(head)
    requires b < |ps| && 0 < idx && idx + 1 < |f(ps[b])|
    requires PaperHeader(line).None? && '\n' !in line && Passive(next) && '\n' !in next
    requires NoBreaks(head + FlatMap(ps, f))
    ensures var lines := head + FlatMap(ps, f);
            var i := Start(head, ps, f, b) + idx;
            i + 1 < |lines| && lines[i] == f(ps[b])[idx] && lines[i + 1] == f(ps[b])[idx + 1]
            && var edited := lines[i := line][i + 1 := next];
               ReadSelections(Join("\n", edited))
               == if Observations(edited)[i].Tick? then map[ps[b].entryNum := Observations(edited)[i].selection] else map[]
  {
    var lines := head + FlatMap(ps, f);
    var blk := f(ps[b]);
    var front := head + FlatMap(ps[..b], f);
    var back := FlatMap(ps[b + 1..], f);
    var i := Start(head, ps, f, b) + idx;
    assert Shaped(blk, ps[b].entryNum);
    LinesAround(head, ps, f, b);
    assert lines == front + blk + back && i == |front| + idx;
    UpdateMiddle(front, blk, back, idx, line);
    UpdateMiddle(front, blk[idx := line], back, idx + 1, next);
    NoBreaksUpdate(lines, i, line);
    NoBreaksUpdate(lines[i := line], i + 1, next);
    ReadEditedLines(head, ps, f, b, blk[idx := line][idx + 1 := next], idx);
  }

  /** Every block the writer makes is shaped. */
  lemma BlocksShaped(percent: (string, string) -> string)
    ensures AllShaped(BlockOf(percent))
  {
    forall p ensures Shaped(BlockOf(percent)(p), p.entryNum) {
      BlockShape(p, percent);
    }
  }

  // ---------------------------------------------------------------------------
  // What the user's edits read back as

  /** Lines without a header, and nothing below them, select nothing. */
  lemma UntouchedHead(head: seq<string>)
    requires |head| >= 1 && Headless(head) && NoBreaks(head)
    ensures ReadSelections(Join("\n", head)) == map[]
  {
    HeadlessObserved(head, head);
    RunSkipsHeaderless(Observations(head), 0, |head|, map[]);
    ReadJoined(head);
  }

  /** Lines without a header above the untouched blocks of a nonempty `ps` select nothing. */
  lemma UntouchedLines(head: seq<string>, ps: seq<Publication>, percent: (string, string) -> string)
    requires Headless(head) && ps != []
    requires NoBreaks(head + Blocks(ps, percent))
    ensures ReadSelections(Join("\n", head + Blocks(ps, percent))) == map[]
  {
    var f := BlockOf(percent);
    var lines := head + FlatMap(ps, f);
    var blk := f(ps[0]);
    BlocksShaped(percent);
    assert Shaped(blk, ps[0].entryNum);
    PassiveIsInert(blk[1]);
    LineOfBlock(head, ps, f, 0, 1);
    var i := Start(head, ps, f, 0) + 1;
    assert lines[i := blk[1]] == lines;
    PassiveRangeObserved(lines, i, i + 1);
    ReadEditedLine(head, ps, f, 0, 1, blk[1]);
  }

  /** Left as written, the file selects nothing. */
  lemma UntouchedSelectsNothing(pubs: seq<Publication>, percent: (string, string) -> string)
    requires NoBreaks(FileLines(pubs, percent))
    ensures ReadSelections(ReviewText(pubs, percent)) == map[]
  {
    ReviewTextLines(pubs, percent);
    HeadNoHeaders(pubs);
    var head := Head(pubs);
    if Flagged(pubs) == [] {
      assert FileLines(pubs, percent) == head;
      UntouchedHead(head);
    } else {
      UntouchedLines(head, Flagged(pubs), percent);
    }
  }

  /** Ticking option `k` in the block of `ps[b]`, below lines without a header. */
  lemma TickOption(head: seq<string>, ps: seq<Publication>, percent: (string, string) -> string, b: nat, k: nat)
    requires Headless(head)
    requires b < |ps| && 1 <= k <= |ps[b].candidates|
    requires NoBreaks(head + Blocks(ps, percent))
    ensures var pub := ps[b];
            var lines := head + Blocks(ps, percent);
            var i := Start(head, ps, BlockOf(percent), b) + OptionIndex(pub, k);
            var option := OptionLine(k, percent(DisplayTitle(pub), OrElse(pub.candidates[k - 1].title, "Unknown")));
            i < |lines| && lines[i] == option
            && ReadSelections(Join("\n", lines[i := Ticked(option)])) == map[pub.entryNum := ChosenOption(k)]
  {
    var f := BlockOf(percent);
    var pub := ps[b];
    var idx := OptionIndex(pub, k);
    var option := OptionLine(k, percent(DisplayTitle(pub), OrElse(pub.candidates[k - 1].title, "Unknown")));
    assert idx < |f(pub)| && f(pub)[idx] == option by {
      OptionLineOfBlock(pub, percent, k);
    }
    assert AllShaped(f) by {
      BlocksShaped(percent);
    }
    var lines := head + FlatMap(ps, f);
    var i := Start(head, ps, f, b) + idx;
    assert i < |lines| && lines[i] == option by {
      LineOfBlock(head, ps, f, b, idx);
    }
    var ticked := Ticked(option);
    assert PaperHeader(ticked).None? && '\n' !in ticked && Observations(lines[i := ticked])[i] == Tick(ChosenOption(k)) by {
      assert '\n' !in option;
      TickedOptionObserved(lines[i := ticked], i, k, percent(DisplayTitle(pub), OrElse(pub.candidates[k - 1].title, "Unknown")));
    }
    ReadEditedLine(head, ps, f, b, idx, ticked);
  }

  /** What the reader keeps for entry `num` from a line that selects `sel`. */
  function Recorded(num: nat, sel: Option<Selection>): map<nat, Selection> {
    if sel.Some? then map[num := sel.value] else map[]
  }

  /** Ticking "Enter DOI manually" in the block of `ps[b]` and typing `doi` into the
      field below, below lines without a header. */
  lemma EnterDoi(head: seq<string>, ps: seq<Publication>, percent: (string, string) -> string, b: nat, doi: string)
    requires Headless(head)
    requires b < |ps|
    requires doi != [] && '`' !in doi && '\n' !in doi
    requires NoBreaks(head + Blocks(ps, percent))
    ensures var lines := head + Blocks(ps, percent);
            var i := Start(head, ps, BlockOf(percent), b) + ManualIndex(ps[b], percent);
            i + 1 < |lines| && lines[i] == Box(ManualLabel) && lines[i + 1] == DoiLine(DoiPlaceholder)
            && ReadSelections(Join("\n", lines[i := Ticked(Box(ManualLabel))][i + 1 := DoiLine(doi)]))
               == Recorded(ps[b].entryNum, ManualFrom(doi))
  {
    var f := BlockOf(percent);
    var lines := head + FlatMap(ps, f);
    var pub := ps[b];
    var idx := ManualIndex(pub, percent);
    ClosingOfBlock(pub, percent);
    assert f(pub)[idx] == Box(ManualLabel) && f(pub)[idx + 1] == DoiLine(DoiPlaceholder);
    BlocksShaped(percent);
    var i := Start(head, ps, f, b) + idx;
    LineOfBlock(head, ps, f, b, idx);
    LineOfBlock(head, ps, f, b, idx + 1);
    var ticked := Ticked(Box(ManualLabel));
    assert '\n' !in lines[i];
    TickedManualObserved(lines[i := ticked][i + 1 := DoiLine(doi)], i, doi);
    DetailPassive("DOI: `" + doi + "`");
    ReadEditedPair(head, ps, f, b, idx, ticked, DoiLine(doi));
  }

  /** Ticking "None of these" in the block of `ps[b]`, below lines without a header. */
  lemma TickNone(head: seq<string>, ps: seq<Publication>, percent: (string, string) -> string, b: nat)
    requires Headless(head)
    requires b < |ps|
    requires NoBreaks(head + Blocks(ps, percent))
    ensures var lines := head + Blocks(ps, percent);
            var i := Start(head, ps, BlockOf(percent), b) + ManualIndex(ps[b], percent) + 3;
            i < |lines| && lines[i] == Box(NoneLabel)
            && ReadSelections(Join("\n", lines[i := Ticked(Box(NoneLabel))])) == map[ps[b].entryNum := NoneOfThese]
  {
    var f := BlockOf(percent);
    var lines := head + FlatMap(ps, f);
    var pub := ps[b];
    var idx := ManualIndex(pub, percent) + 3;
    ClosingOfBlock(pub, percent);
    assert f(pub)[idx] == Box(NoneLabel);
    BlocksShaped(percent);
    var i := Start(head, ps, f, b) + idx;
    LineOfBlock(head, ps, f, b, idx);
    var ticked := Ticked(Box(NoneLabel));
    assert '\n' !in lines[i];
    TickedNoneObserved(lines[i := ticked], i);
    ReadEditedLine(head, ps, f, b, idx, ticked);
  }
}
