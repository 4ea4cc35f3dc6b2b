/**
 Reading the user's choices back from the manual-review file.

 The reader walks the lines once. A `### Paper N:` header makes N the current
 entry; a checked box (`- [x]` or `- [X]` once the line is stripped) after a
 header records a selection for the current entry, overwriting any earlier one:
 an option number, a DOI typed into the field of the "Enter DOI manually" box,
 or "None of these".
 */
module ReviewReader {
  import opened Text
  import ReviewWriter

  datatype Selection = ChosenOption(optionNum: nat) | ManualDoi(doi: string) | NoneOfThese

  /** `re.match(r'### Paper (\d+):', line)`: the entry number of a header line. */
  function PaperHeader(line: string): (r: Option<nat>)
    ensures r.Some? ==> StartsWith(line, "### Paper ") && 10 < |line|
  {
    if !StartsWith(line, "### Paper ") then None
    else
      var k := SkipDigits(line, 10);
      if 10 < k < |line| && line[k] == ':' then Some(DigitsToNat(line[10..k])) else None
  }

  /** A stripped line whose box is ticked. */
  predicate IsChecked(stripped: string) {
    StartsWith(stripped, "- [x]") || StartsWith(stripped, "- [X]")
  }

  /** What follows the ticked box, stripped. */
  function SelectionText(line: string): string
    requires IsChecked(Strip(line))
  {
    Strip(Strip(line)[5..])
  }

  /** `Option ` followed by a digit starts at `p`. */
  predicate OptionAt(t: string, p: nat) {
    OccursAt(t, "Option ", p) && p + 7 < |t| && IsDigit(t[p + 7])
  }

  /** `re.search(r'Option (\d+)', t)`: the number after the leftmost `Option ` that has one. */
  function OptionNumber(t: string): (r: Option<nat>)
    ensures r.None? <==> forall p: nat :: !OptionAt(t, p)
    ensures r.Some? ==> exists p: nat :: OptionAt(t, p) && (forall q: nat :: q < p ==> !OptionAt(t, q))
                                         && r.value == DigitsToNat(t[p + 7..SkipDigits(t, p + 7)])
  {
    var P := (p: nat) => OptionAt(t, p);
    assert forall p: nat :: P(p) == OptionAt(t, p);
    var found := FindFirst(P, 0, |t|);
    if found.None? then None
    else
      var p := found.value;
      var e := SkipDigits(t, p + 7);
      assert AllDigits(t[p + 7..e]);
      Some(DigitsToNat(t[p + 7..e]))
  }

  /** `DOI:`, optional whitespace, and a back-quoted non-empty field start at `p`. */
  predicate DoiFieldAt(line: string, p: nat) {
    OccursAt(line, "DOI:", p)
    && var q := SkipSpaces(line, p + 4);
       q < |line| && line[q] == '`'
       && var e := SkipNotIn(line, q + 1, {'`'});
          q + 1 < e < |line|
  }

  /** `re.search(r'DOI:\s*`([^`]+)`', line).group(1)`. */
  function DoiField(line: string): (r: Option<string>)
    ensures r.Some? ==> r.value != [] && '`' !in r.value
  {
    var P := (p: nat) => DoiFieldAt(line, p);
    assert forall p: nat :: P(p) == DoiFieldAt(line, p);
    var found := FindFirst(P, 0, |line|);
    if found.None? then None
    else
      var q := SkipSpaces(line, found.value + 4);
      var e := SkipNotIn(line, q + 1, {'`'});
      Some(line[q + 1..e])
  }

  /** The field is found exactly when the pattern occurs, and it is the text
      between the back-quotes of the leftmost occurrence. */
  lemma DoiFieldLeftmost(line: string)
    ensures DoiField(line).None? <==> forall p: nat :: !DoiFieldAt(line, p)
    ensures DoiField(line).Some? ==>
              exists p: nat :: DoiFieldAt(line, p) && (forall q: nat :: q < p ==> !DoiFieldAt(line, q))
                && var q := SkipSpaces(line, p + 4);
                   DoiField(line).value == line[q + 1..SkipNotIn(line, q + 1, {'`'})]
  {
    var P := (p: nat) => DoiFieldAt(line, p);
    assert forall p: nat :: P(p) == DoiFieldAt(line, p);
    var found := FindFirst(P, 0, |line|);
    if found.Some? {
      assert DoiFieldAt(line, found.value);
    }
  }

  /** The field of a leftmost occurrence is what the search returns. */
  lemma DoiFieldFrom(line: string, p: nat)
    requires DoiFieldAt(line, p) && forall q: nat :: q < p ==> !DoiFieldAt(line, q)
    ensures var q := SkipSpaces(line, p + 4);
            DoiField(line) == Some(line[q + 1..SkipNotIn(line, q + 1, {'`'})])
  {
    var P := (p: nat) => DoiFieldAt(line, p);
    assert forall p: nat :: P(p) == DoiFieldAt(line, p);
    var found := FindFirst(P, 0, |line|);
    assert found == Some(p);
  }

  /** A DOI the reader accepts from the manual field. */
  predicate ValidManualDoi(doi: string) {
    doi != "" && doi != ReviewWriter.DoiPlaceholder && StartsWith(doi, "10.")
  }

  /** What a DOI field records: the stripped DOI when it is acceptable. */
  function ManualFrom(field: string): (r: Option<Selection>)
    ensures r.Some? <==> ValidManualDoi(Strip(field))
    ensures r.Some? ==> r.value == ManualDoi(Strip(field))
  {
    var doi := Strip(field);
    if ValidManualDoi(doi) then Some(ManualDoi(doi)) else None
  }

  /** Line `j` is the first line with a DOI field among the four after line `i`. */
  predicate FirstDoiLine(lines: seq<string>, i: nat, j: nat) {
    i < j < i + 5 && j < |lines| && DoiField(lines[j]).Some?
    && forall k :: i < k < j ==> DoiField(lines[k]).None?
  }

  /** Where the lookahead finds its DOI field: the first of the four lines after
      line `i` that has one. */
  function DoiLineAfter(lines: seq<string>, i: nat): (r: Option<nat>)
    ensures r.Some? ==> FirstDoiLine(lines, i, r.value)
    ensures r.None? ==> forall j: nat :: !FirstDoiLine(lines, i, j)
  {
    var P := (j: nat) => j < |lines| && DoiField(lines[j]).Some?;
    assert forall j: nat :: P(j) == (j < |lines| && DoiField(lines[j]).Some?);
    FindFirst(P, i + 1, i + 4)
  }

  /** There is at most one first line with a DOI field. */
  lemma FirstDoiLineUnique(lines: seq<string>, i: nat, j: nat)
    requires FirstDoiLine(lines, i, j)
    ensures forall j': nat :: FirstDoiLine(lines, i, j') ==> j' == j
  {
  }

  /** The lookahead after a ticked "Enter DOI manually" box at line `i`. */
  function LookAhead(lines: seq<string>, i: nat): (r: Option<Selection>)
    ensures forall j: nat :: FirstDoiLine(lines, i, j) ==> r == ManualFrom(DoiField(lines[j]).value)
    ensures (forall j: nat :: !FirstDoiLine(lines, i, j)) ==> r.None?
  {
    match DoiLineAfter(lines, i)
    case None => None
    case Some(j) =>
      FirstDoiLineUnique(lines, i, j);
      ManualFrom(DoiField(lines[j]).value)
  }

  /** The selection a ticked line at `i` records, if any. */
  function Effect(lines: seq<string>, i: nat): Option<Selection>
    requires i < |lines| && IsChecked(Strip(lines[i]))
  {
    var t := SelectionText(lines[i]);
    if Contains(t, "Option") then
      var number := OptionNumber(t);
      if number.Some? then Some(ChosenOption(number.value)) else None
    else if Contains(t, "Enter DOI manually") then LookAhead(lines, i)
    else if Contains(t, "None of these") then Some(NoneOfThese)
    else None
  }

  /** What the reading loop sees on one line. */
  datatype Observation = Header(entry: nat) | Tick(selection: Selection) | Other

  /** A header line; otherwise a ticked box that records a selection; otherwise nothing. */
  function Observe(lines: seq<string>, i: nat): Observation
    requires i < |lines|
  {
    var header := PaperHeader(lines[i]);
    if header.Some? then Header(header.value)
    else if IsChecked(Strip(lines[i])) && Effect(lines, i).Some? then Tick(Effect(lines, i).value)
    else Other
  }

  /** What the reading loop sees on each line from `i` on. */
  function ObservationsFrom(lines: seq<string>, i: nat): (obs: seq<Observation>)
    requires i <= |lines|
    decreases |lines| - i
    ensures |obs| == |lines| - i
  {
    if i == |lines| then [] else [Observe(lines, i)] + ObservationsFrom(lines, i + 1)
  }

  function Observations(lines: seq<string>): (obs: seq<Observation>)
    ensures |obs| == |lines|
  {
    ObservationsFrom(lines, 0)
  }

  lemma {:induction false} ObservationFromAt(lines: seq<string>, i: nat, k: nat)
    requires i <= k < |lines|
    ensures ObservationsFrom(lines, i)[k - i] == Observe(lines, k)
    decreases k - i
  {
    if i < k {
      ObservationFromAt(lines, i + 1, k);
    }
  }

  /** Line `k` is seen as `Observe` says. */
  lemma ObservationAt(lines: seq<string>, k: nat)
    requires k < |lines|
    ensures Observations(lines)[k] == Observe(lines, k)
  {
    ObservationFromAt(lines, 0, k);
  }

  /** The reading loop from line `i` with current entry `cur` and selections `acc`:
      a tick is recorded only under a header. */
  function Run(obs: seq<Observation>, i: nat, cur: Option<nat>, acc: map<nat, Selection>): map<nat, Selection>
    decreases |obs| - i
  {
    if i >= |obs| then acc
    else if obs[i].Header? then Run(obs, i + 1, Some(obs[i].entry), acc)
    else if obs[i].Tick? && cur.Some? then Run(obs, i + 1, cur, acc[cur.value := obs[i].selection])
    else Run(obs, i + 1, cur, acc)
  }

  function Selections(lines: seq<string>): map<nat, Selection> {
    Run(Observations(lines), 0, None, map[])
  }

  function ReadSelections(content: string): map<nat, Selection> {
    Selections(SplitOn(content, '\n'))
  }

  /** The manual-DOI lookahead loop: at most four lines, stopping at the first DOI field. */
  method FindManualDoi(lines: seq<string>, i: nat) returns (r: Option<Selection>)
    requires i < |lines|
    ensures r == LookAhead(lines, i)
  {
    var j := i + 1;
    while j < |lines| && j < i + 5
      invariant i + 1 <= j <= i + 5 && j <= |lines|
      invariant forall k :: i < k < j ==> DoiField(lines[k]).None?
    {
      var field := DoiField(lines[j]);
      if field.Some? {
        assert FirstDoiLine(lines, i, j);
        var doi := Strip(field.value);
        if ValidManualDoi(doi) {
          return Some(ManualDoi(doi));
        }
        return None;
      }
      j := j + 1;
    }
    assert forall k: nat :: !FirstDoiLine(lines, i, k);
    return None;
  }

  /** The selection a ticked line records: by option number, by manual DOI, or none. */
  method ReadTick(lines: seq<string>, i: nat) returns (effect: Option<Selection>)
    requires i < |lines| && IsChecked(Strip(lines[i]))
    ensures effect == Effect(lines, i)
  {
    var text := Strip(Strip(lines[i])[5..]);
    effect := None;
    if Contains(text, "Option") {
      var number := OptionNumber(text);
      if number.Some? {
        effect := Some(ChosenOption(number.value));
      }
    } else if Contains(text, "Enter DOI manually") {
      effect := FindManualDoi(lines, i);
    } else if Contains(text, "None of these") {
      effect := Some(NoneOfThese);
    }
  }

  /** Reads the review file line by line into a map from entry number to selection. */
  method ParseManualReview(content: string) returns (selections: map<nat, Selection>)
    ensures selections == ReadSelections(content)
  {
    var lines := SplitOn(content, '\n');
    ghost var obs := Observations(lines);
    selections := map[];
    var current: Option<nat> := None;
    var i := 0;
    while i < |lines|
      invariant i <= |lines|
      invariant Run(obs, i, current, selections) == Selections(lines)
    {
      ObservationAt(lines, i);
      var header := PaperHeader(lines[i]);
      if header.Some? {
        current := header;
      } else if current.Some? && IsChecked(Strip(lines[i])) {
        var effect := ReadTick(lines, i);
        if effect.Some? {
          selections := selections[current.value := effect.value];
        }
      }
      i := i + 1;
    }
  }

  // ---------------------------------------------------------------------------
  // What the reading loop computes

  /** The entry of the last header above line `i`. */
  function CurrentAt(obs: seq<Observation>, i: nat): Option<nat>
    requires i <= |obs|
  {
    if i == 0 then None
    else if obs[i - 1].Header? then Some(obs[i - 1].entry)
    else CurrentAt(obs, i - 1)
  }

  /** Line `j` is a tick under the header of entry `n`. */
  predicate SelectsFor(obs: seq<Observation>, j: nat, n: nat) {
    j < |obs| && obs[j].Tick? && CurrentAt(obs, j) == Some(n)
  }

  /** The last line from `lo` on that selects for `n`. */
  ghost function LastSelect(obs: seq<Observation>, n: nat, lo: nat): (r: Option<nat>)
    decreases |obs| - lo
    ensures r.Some? ==> lo <= r.value && SelectsFor(obs, r.value, n)
                        && forall j: nat :: r.value < j ==> !SelectsFor(obs, j, n)
    ensures r.None? ==> forall j: nat :: lo <= j ==> !SelectsFor(obs, j, n)
  {
    if lo >= |obs| then None
    else
      var later := LastSelect(obs, n, lo + 1);
      if later.Some? then later
      else if SelectsFor(obs, lo, n) then Some(lo)
      else None
  }

  lemma {:induction false} RunSelects(obs: seq<Observation>, i: nat, acc: map<nat, Selection>)
    requires i <= |obs|
    ensures var r := Run(obs, i, CurrentAt(obs, i), acc);
            forall n :: n in r <==> LastSelect(obs, n, i).Some? || n in acc
    ensures var r := Run(obs, i, CurrentAt(obs, i), acc);
            forall n :: n in r ==>
              r[n] == if LastSelect(obs, n, i).Some? then obs[LastSelect(obs, n, i).value].selection else acc[n]
    decreases |obs| - i
  {
    if i < |obs| {
      var cur := CurrentAt(obs, i);
      assert CurrentAt(obs, i + 1) == if obs[i].Header? then Some(obs[i].entry) else cur;
      if obs[i].Tick? && cur.Some? {
        var acc' := acc[cur.value := obs[i].selection];
        RunSelects(obs, i + 1, acc');
        forall n ensures LastSelect(obs, n, i) ==
                         if LastSelect(obs, n, i + 1).Some? then LastSelect(obs, n, i + 1)
                         else if n == cur.value then Some(i) else None {
          assert SelectsFor(obs, i, n) <==> n == cur.value;
        }
      } else {
        RunSelects(obs, i + 1, acc);
        forall n ensures LastSelect(obs, n, i) == LastSelect(obs, n, i + 1) {
          assert !SelectsFor(obs, i, n);
        }
      }
    }
  }

  /** An entry is selected exactly when some ticked line under its header records
      a selection, and then it holds what the last such line records: a later
      tick overwrites an earlier one. */
  lemma LaterSelectionWins(lines: seq<string>, n: nat)
    ensures var obs := Observations(lines);
            n in Selections(lines) <==> exists j: nat :: SelectsFor(obs, j, n)
    ensures var obs := Observations(lines);
            n in Selections(lines) ==>
              exists j: nat :: SelectsFor(obs, j, n) && Selections(lines)[n] == obs[j].selection
                               && forall k: nat :: j < k ==> !SelectsFor(obs, k, n)
  {
    var obs := Observations(lines);
    RunSelects(obs, 0, map[]);
    var last := LastSelect(obs, n, 0);
    if last.Some? {
      assert SelectsFor(obs, last.value, n);
    }
  }

  /** Ticks above the first header, or in a file without one, select nothing. */
  lemma {:induction false} NoHeaderNoSelections(obs: seq<Observation>, i: nat)
    requires i <= |obs|
    requires forall k :: i <= k < |obs| ==> !obs[k].Header?
    ensures Run(obs, i, None, map[]) == map[]
    decreases |obs| - i
  {
    if i < |obs| {
      NoHeaderNoSelections(obs, i + 1);
    }
  }
}
