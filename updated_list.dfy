/**
 The grouping behind the updated publication list that phase 2 writes.

 One pass over the entries sets aside the preprints that have no published
 version and files every other entry with a year under that year; an entry with
 neither is left out of the list. The page then shows the preprints first, and
 after them the years newest first, each section by decreasing entry number.
 The year is the work's publication year when it has one, the parsed year
 otherwise.
 */
module UpdatedList {
  import opened Text
  import opened Records
  import opened Grouping

  /** An entry of the Preprints section without a published version. */
  predicate UnpublishedPreprint(p: Publication) {
    p.section == Some("Preprints") && !p.preprintNowPublished
  }

  /** `openalex.get('publication_year') or pub.get('year')`. */
  function ListYear(p: Publication): (r: Option<int>)
    ensures p.openalex.Some? && YearTruthy(p.openalex.value.publicationYear) ==> r == p.openalex.value.publicationYear
    ensures !(p.openalex.Some? && YearTruthy(p.openalex.value.publicationYear)) ==>
              r == if p.year.Some? then Some(p.year.value as int) else None
  {
    if p.openalex.Some? && YearTruthy(p.openalex.value.publicationYear) then p.openalex.value.publicationYear
    else if p.year.Some? then Some(p.year.value as int)
    else None
  }

  /** The year an entry is filed under, if it is filed under one. */
  function FiledYear(p: Publication): (r: Option<int>)
    ensures r.Some? <==> !UnpublishedPreprint(p) && YearTruthy(ListYear(p))
    ensures r.Some? ==> r == ListYear(p)
  {
    if UnpublishedPreprint(p) || !YearTruthy(ListYear(p)) then None else ListYear(p)
  }

  /** The entry number, the sort key of every section. */
  function EntryKey(p: Publication): int { p.entryNum }

  /** The unpublished preprints, in input order. */
  function Preprints(ps: seq<Publication>): seq<Publication>
    decreases |ps|
  {
    if ps == [] then []
    else Preprints(ps[..|ps| - 1]) + (if UnpublishedPreprint(ps[|ps| - 1]) then [ps[|ps| - 1]] else [])
  }

  /** The loop of `generate_updated_markdown` that sets the preprints aside and
      fills the year dictionary; `years` is the dictionary's key order. */
  method GroupForUpdate(pubs: seq<Publication>) returns (preprints: seq<Publication>, years: seq<int>,
                                                        byYear: map<int, seq<Publication>>)
    ensures preprints == Preprints(pubs)
    ensures years == YearKeys(pubs, FiledYear)
    ensures forall y :: y in byYear <==> y in years
    ensures forall y :: y in byYear ==> byYear[y] == InYear(pubs, FiledYear, y)
  {
    preprints, years, byYear := [], [], map[];
    for i := 0 to |pubs|
      invariant preprints == Preprints(pubs[..i])
      invariant years == YearKeys(pubs[..i], FiledYear)
      invariant forall y :: y in byYear <==> y in years
      invariant forall y :: y in byYear ==> byYear[y] == InYear(pubs[..i], FiledYear, y)
    {
      var pub := pubs[i];
      assert pubs[..i + 1][..i] == pubs[..i];
      var year := ListYear(pub);
      ghost var before := byYear;
      ghost var keysBefore := years;
      if pub.section == Some("Preprints") && !pub.preprintNowPublished {
        preprints := preprints + [pub];
      } else if year.Some? && year.value != 0 {
        if year.value !in byYear {
          byYear := byYear[year.value := []];
          years := years + [year.value];
        }
        byYear := byYear[year.value := byYear[year.value] + [pub]];
      }
      forall y | y in byYear ensures byYear[y] == InYear(pubs[..i + 1], FiledYear, y) {
        assert InYear(pubs[..i + 1], FiledYear, y)
          == InYear(pubs[..i], FiledYear, y) + (if FiledYear(pub) == Some(y) then [pub] else []);
        if y !in before {
          InYearEmpty(pubs[..i], FiledYear, y);
        }
      }
    }
    assert pubs[..|pubs|] == pubs;
  }

  /** One section of the updated list: `None` heads the preprints. */
  datatype Section = Section(year: Option<int>, entries: seq<Publication>)

  /** The year sections, each headed by its year. */
  function Headed(ys: seq<(int, seq<Publication>)>): (r: seq<Section>)
    ensures |r| == |ys|
    ensures forall j :: 0 <= j < |r| ==> r[j] == Section(Some(ys[j].0), ys[j].1)
  {
    seq(|ys|, j requires 0 <= j < |ys| => Section(Some(ys[j].0), ys[j].1))
  }

  /** The preprint section, present when there are preprints. */
  function PreprintSection(pubs: seq<Publication>): (r: seq<Section>)
    ensures |r| <= 1
    ensures r != [] ==> r[0].year.None?
  {
    var pre := Preprints(pubs);
    if pre == [] then [] else [Section(None, SortDescending(pre, EntryKey))]
  }

  /** The sections of the updated list in page order. */
  function UpdatedSections(pubs: seq<Publication>): seq<Section> {
    PreprintSection(pubs) + Headed(YearSections(pubs, FiledYear, EntryKey))
  }

  lemma {:induction false} PreprintMembers(ps: seq<Publication>, x: Publication)
    ensures x in Preprints(ps) <==> x in ps && UnpublishedPreprint(x)
    decreases |ps|
  {
    if ps != [] {
      PreprintMembers(ps[..|ps| - 1], x);
      assert ps == ps[..|ps| - 1] + [ps[|ps| - 1]];
    }
  }

  /** The preprint section lists by decreasing entry number exactly the
      unpublished preprints. */
  lemma PreprintSectionContents(pubs: seq<Publication>)
    ensures var s := PreprintSection(pubs);
      && (forall j :: 0 <= j < |s| ==> Descending(s[j].entries, EntryKey))
      && (forall j, x :: 0 <= j < |s| ==> (x in s[j].entries <==> x in pubs && UnpublishedPreprint(x)))
      && (s == [] <==> forall x :: x in pubs ==> !UnpublishedPreprint(x))
  {
    var pre := Preprints(pubs);
    forall x ensures x in SortDescending(pre, EntryKey) <==> x in pubs && UnpublishedPreprint(x) {
      PreprintMembers(pubs, x);
      SortedHasSameMembers(pre, EntryKey, x);
    }
    if pre != [] {
      assert pre[0] in SortDescending(pre, EntryKey) by { SortedHasSameMembers(pre, EntryKey, pre[0]); }
    }
  }

  /** The `m`-th year section of the page. */
  lemma YearSectionOfPage(pubs: seq<Publication>, m: nat)
    requires m < |YearSections(pubs, FiledYear, EntryKey)|
    ensures var s := UpdatedSections(pubs);
            var ys := YearSections(pubs, FiledYear, EntryKey);
            var j := |PreprintSection(pubs)| + m;
            j < |s| && s[j] == Section(Some(ys[m].0), ys[m].1)
  {
    var ys := YearSections(pubs, FiledYear, EntryKey);
    assert Headed(ys)[m] == Section(Some(ys[m].0), ys[m].1);
  }

  /** Every section of the page is in decreasing entry number. */
  lemma UpdatedSectionsSorted(pubs: seq<Publication>)
    ensures var s := UpdatedSections(pubs);
      forall j :: 0 <= j < |s| ==> Descending(s[j].entries, EntryKey)
  {
    var s := UpdatedSections(pubs);
    var pre := PreprintSection(pubs);
    PreprintSectionContents(pubs);
    forall j | 0 <= j < |s| ensures Descending(s[j].entries, EntryKey) {
      if j < |pre| {
        assert s[j] == pre[j];
      } else {
        var m := j - |pre|;
        YearSectionOfPage(pubs, m);
        YearSectionContents(pubs, FiledYear, EntryKey, m, pubs[0]);
      }
    }
  }

  /** The page lists the preprints first, then one section per year, newest first. */
  lemma UpdatedSectionsNewestFirst(pubs: seq<Publication>)
    ensures var s := UpdatedSections(pubs);
      && (forall j :: 0 < j < |s| ==> s[j].year.Some?)
      && (forall i, j :: 0 <= i < j < |s| && s[i].year.Some? ==> s[i].year.value > s[j].year.value)
  {
    var s := UpdatedSections(pubs);
    var pre := PreprintSection(pubs);
    var ys := YearSections(pubs, FiledYear, EntryKey);
    YearSectionsNewestFirst(pubs, FiledYear, EntryKey);
    forall j | 0 < j < |s| ensures s[j].year.Some? {
      if j >= |pre| {
        YearSectionOfPage(pubs, j - |pre|);
      }
    }
    forall i, j | 0 <= i < j < |s| && s[i].year.Some? ensures s[i].year.value > s[j].year.value {
      YearSectionOfPage(pubs, i - |pre|);
      YearSectionOfPage(pubs, j - |pre|);
    }
  }

  lemma YearSectionMembers(pubs: seq<Publication>, m: nat, x: Publication)
    requires m < |YearSections(pubs, FiledYear, EntryKey)|
    ensures var s := UpdatedSections(pubs);
            var j := |PreprintSection(pubs)| + m;
            j < |s| && s[j].year.Some? && (x in s[j].entries <==> x in pubs && FiledYear(x) == s[j].year)
  {
    var ys := YearSections(pubs, FiledYear, EntryKey);
    YearSectionOfPage(pubs, m);
    YearSectionContents(pubs, FiledYear, EntryKey, m, x);
    assert x in ys[m].1 <==> x in pubs && FiledYear(x) == Some(ys[m].0);
  }

  lemma PreprintSectionOfPage(pubs: seq<Publication>, x: Publication)
    requires PreprintSection(pubs) != []
    ensures var s := UpdatedSections(pubs);
      s != [] && s[0].year.None? && (x in s[0].entries <==> x in pubs && UnpublishedPreprint(x))
  {
    var pre := PreprintSection(pubs);
    PreprintSectionContents(pubs);
    assert x in pre[0].entries <==> x in pubs && UnpublishedPreprint(x);
    assert UpdatedSections(pubs)[0] == pre[0];
  }

  /** The preprint section holds exactly the unpublished preprints, and the
      section of a year exactly the other entries filed under that year. */
  lemma UpdatedSectionsContents(pubs: seq<Publication>, j: nat, x: Publication)
    requires j < |UpdatedSections(pubs)|
    ensures var s := UpdatedSections(pubs);
      && (s[j].year.None? ==> (x in s[j].entries <==> x in pubs && UnpublishedPreprint(x)))
      && (s[j].year.Some? ==> (x in s[j].entries <==> x in pubs && FiledYear(x) == s[j].year))
  {
    var pre := PreprintSection(pubs);
    if j < |pre| {
      PreprintSectionOfPage(pubs, x);
    } else {
      var m := j - |pre|;
      YearSectionMembers(pubs, m, x);
      assert |pre| + m == j;
    }
  }

  /** Every entry appears in exactly one section when it is an unpublished
      preprint or has a year, and in none otherwise. */
  lemma EveryEntryPlacedOnce(pubs: seq<Publication>, k: nat)
    requires k < |pubs|
    ensures var s := UpdatedSections(pubs);
      (UnpublishedPreprint(pubs[k]) || YearTruthy(ListYear(pubs[k])))
        <==> exists j :: 0 <= j < |s| && pubs[k] in s[j].entries
    ensures var s := UpdatedSections(pubs);
      forall i, j :: 0 <= i < j < |s| && pubs[k] in s[i].entries ==> pubs[k] !in s[j].entries
  {
    var s := UpdatedSections(pubs);
    var x := pubs[k];
    var pre := PreprintSection(pubs);
    forall j | 0 <= j < |s| && x in s[j].entries ensures UnpublishedPreprint(x) || YearTruthy(ListYear(x)) {
      UpdatedSectionsContents(pubs, j, x);
    }
    if UnpublishedPreprint(x) {
      PreprintSectionContents(pubs);
      assert pre != [];
      assert s[0] == pre[0];
      UpdatedSectionsContents(pubs, 0, x);
    } else if YearTruthy(ListYear(x)) {
      YearSectionsCoverYears(pubs, FiledYear, EntryKey, k);
      var ys := YearSections(pubs, FiledYear, EntryKey);
      var j :| 0 <= j < |ys| && ys[j].0 == FiledYear(x).value;
      YearSectionOfPage(pubs, j);
      UpdatedSectionsContents(pubs, j + |pre|, x);
    }
    UpdatedSectionsNewestFirst(pubs);
    forall i, j | 0 <= i < j < |s| && x in s[i].entries ensures x !in s[j].entries {
      UpdatedSectionsContents(pubs, i, x);
      UpdatedSectionsContents(pubs, j, x);
    }
  }

  // ---------------------------------------------------------------------------
  // Authors of the updated list

  /** One author of the updated list: bold when the highlighted name occurs
      anywhere in it, ignoring case. */
  function MarkdownAuthor(author: string, highlight: string): string {
    if Contains(Lower(author), Lower(highlight)) then "**" + author + "**" else author
  }

  function MarkdownAuthors(authors: seq<string>, highlight: string): (r: seq<string>)
    ensures |r| == |authors|
    ensures forall k :: 0 <= k < |r| ==> r[k] == MarkdownAuthor(authors[k], highlight)
  {
    seq(|authors|, k requires 0 <= k < |authors| => MarkdownAuthor(authors[k], highlight))
  }

  /** `format_authors_for_markdown`: every author labelled, in order, joined by commas. */
  method FormatAuthorsForMarkdown(authors: seq<string>, highlight: string) returns (s: string)
    ensures s == Join(", ", MarkdownAuthors(authors, highlight))
  {
    var formatted: seq<string> := [];
    for i := 0 to |authors|
      invariant |formatted| == i
      invariant forall k :: 0 <= k < i ==> formatted[k] == MarkdownAuthor(authors[k], highlight)
    {
      if Contains(Lower(authors[i]), Lower(highlight)) {
        formatted := formatted + ["**" + authors[i] + "**"];
      } else {
        formatted := formatted + [authors[i]];
      }
    }
    assert formatted == MarkdownAuthors(authors, highlight);
    s := Join(", ", formatted);
  }

  /** The highlighted name is looked for as a piece of the author's text, in any
      case: a longer surname that contains it, such as `Atkinson` for `Atkins`,
      is bold too (the papers page matches whole surnames only). */
  lemma HighlightFoundInsideName(pre: string, name: string, rest: string, highlight: string)
    requires Lower(name) == Lower(highlight)
    ensures MarkdownAuthor(pre + name + rest, highlight) == "**" + (pre + name + rest) + "**"
  {
    var a := pre + name + rest;
    assert Lower(a)[|pre|..|pre| + |name|] == Lower(name) by {
      forall k | 0 <= k < |name| ensures Lower(a)[|pre| + k] == Lower(name)[k] {
        assert a[|pre| + k] == name[k];
      }
    }
    assert OccursAt(Lower(a), Lower(highlight), |pre|);
  }

  /** An empty highlight occurs in every name, so it bolds every author. */
  lemma EmptyHighlightBoldsAll(author: string)
    ensures MarkdownAuthor(author, "") == "**" + author + "**"
  {
    EmptyOccursEverywhere(Lower(author));
  }
}
