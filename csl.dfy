/**
 CSL-JSON output of phase 2, and the CSL-JSON item the later scripts read.

 Each entry becomes one item built from its work when it has one and from its
 parsed fields otherwise: an id made of the first author's surname, the year and
 the first title word, the item type, authors split into given and family names,
 the optional fields the work carries, and a note naming the entry number.
 */
module Csl {
  import opened Text
  import opened Records

  /** A CSL author: a `literal` name, or `given` and `family` parts. */
  datatype CslName = CslName(family: Option<string>, given: Option<string>, literal: Option<string>)

  /** A CSL-JSON item, as far as the pipeline reads or writes it. `dateParts` is
      `issued.date-parts`, empty when absent. */
  datatype CslItem = CslItem(
    id: string,
    itemType: string,
    title: Option<string>,
    author: seq<CslName>,
    dateParts: seq<seq<Option<int>>>,
    containerTitle: Option<string>,
    doi: Option<string>,
    volume: Option<string>,
    issue: Option<string>,
    page: Option<string>,
    url: Option<string>,
    citationCount: Option<int>,
    note: Option<string>)

  // ---------------------------------------------------------------------------
  // Authors

  /** One author name split on whitespace: the last word is the family name and
      the others, joined by single spaces, the given names; a name of fewer than
      two words is kept whole as the family name. */
  function CslAuthor(name: string): CslName {
    var parts := Words(name);
    if |parts| >= 2 then CslName(Some(parts[|parts| - 1]), Some(Join(" ", parts[..|parts| - 1])), None)
    else CslName(Some(name), Some(""), None)
  }

  /** `format_authors_for_csl`: every name split, in order. */
  method FormatAuthorsForCsl(authors: seq<string>) returns (names: seq<CslName>)
    ensures |names| == |authors|
    ensures forall k :: 0 <= k < |names| ==> names[k] == CslAuthor(authors[k])
  {
    names := [];
    for i := 0 to |authors|
      invariant |names| == i
      invariant forall k :: 0 <= k < i ==> names[k] == CslAuthor(authors[k])
    {
      names := names + [CslAuthor(authors[i])];
    }
  }

  /** The parts of a split name put back together give the name's words, each
      separated by one space; the family name is a single word. */
  lemma CslAuthorRejoins(name: string)
    requires |Words(name)| >= 2
    ensures var n := CslAuthor(name);
      && n.given.Some? && n.family.Some? && n.literal.None?
      && n.given.value + " " + n.family.value == Join(" ", Words(name))
      && n.family.value != [] && NoSpace(n.family.value)
  {
    var ws := Words(name);
    var k := |ws| - 1;
    JoinConcat(" ", ws[..k], [ws[k]]);
    assert ws[..k] + [ws[k]] == ws;
  }

  /** A name of fewer than two words is kept whole, surrounding spaces included. */
  lemma CslAuthorKeepsShortName(name: string)
    requires |Words(name)| < 2
    ensures CslAuthor(name) == CslName(Some(name), Some(""), None)
  {
  }

  // ---------------------------------------------------------------------------
  // Items

  /** What `pub.get('openalex', {})` reads as when there is no work: every field
      missing, no authors, no citations. */
  const NoWork: Work := Work(None, None, None, None, None, 0, [], None, None, None, None, None, None, false)

  function Meta(pub: Publication): Work {
    if pub.openalex.Some? then pub.openalex.value else NoWork
  }

  /** The title the id is built from: the work's, the entry's, or `untitled`. */
  function IdTitle(pub: Publication): string {
    if Truthy(Meta(pub).title) then Meta(pub).title.value else OrElse(pub.title, "untitled")
  }

  /** The source indexes the first word of the first author and of the title: both
      must have one. */
  predicate Identifiable(pub: Publication) {
    (Meta(pub).authors != [] ==> Words(Meta(pub).authors[0]) != [])
    && Words(IdTitle(pub)) != []
  }

  /** The year part of the id: the work's year, the entry's, or `unknown`. */
  function IdYear(pub: Publication): string {
    if YearTruthy(Meta(pub).publicationYear) then IntToString(Meta(pub).publicationYear.value)
    else if pub.year.Some? && pub.year.value != 0 then NatToString(pub.year.value)
    else "unknown"
  }

  /** The id: first author's last word lower-cased (or `unknown`), the year, and
      the title's first word lower-cased and cut to ten characters. */
  function ItemId(pub: Publication): string
    requires Identifiable(pub)
  {
    var authors := Meta(pub).authors;
    var first := if authors != [] then Lower(Words(authors[0])[|Words(authors[0])| - 1]) else "unknown";
    first + IdYear(pub) + Take(Lower(Words(IdTitle(pub))[0]), 10)
  }

  /** `article-journal`, except `manuscript` for a preprint. */
  function ItemType(pub: Publication): string {
    if Meta(pub).workType == Some("preprint") then "manuscript" else "article-journal"
  }

  /** A truthy string field, dropped otherwise. */
  function IfTruthy(o: Option<string>): (r: Option<string>)
    ensures r.Some? <==> Truthy(o)
    ensures r.Some? ==> r == o
  {
    if Truthy(o) then o else None
  }

  /** `first-last`, or the first page alone, when there is a first page. */
  function PageRange(w: Work): Option<string> {
    if !Truthy(w.firstPage) then None
    else if Truthy(w.lastPage) then Some(w.firstPage.value + "-" + w.lastPage.value)
    else w.firstPage
  }

  /** The note that keeps the entry number. */
  function EntryNote(n: nat): string {
    "Original entry: [" + NatToString(n) + "]"
  }

  /** The item of one entry. */
  function CslItemOf(pub: Publication): CslItem
    requires Identifiable(pub)
  {
    var w := Meta(pub);
    CslItem(
      id := ItemId(pub),
      itemType := ItemType(pub),
      title := if Truthy(w.title) then w.title else pub.title,
      author := seq(|w.authors|, k requires 0 <= k < |w.authors| => CslAuthor(w.authors[k])),
      dateParts := [[if YearTruthy(w.publicationYear) then w.publicationYear
                     else if pub.year.Some? then Some(pub.year.value as int) else None]],
      containerTitle := if Truthy(w.journal) then w.journal else pub.journal,
      doi := IfTruthy(w.doi),
      volume := IfTruthy(w.volume),
      issue := IfTruthy(w.issue),
      page := PageRange(w),
      url := IfTruthy(w.oaUrl),
      citationCount := if w.citedByCount != 0 then Some(w.citedByCount) else None,
      note := Some(EntryNote(pub.entryNum)))
  }

  /** `create_csl_json`: one item per entry, in order. */
  method CreateCslJson(pubs: seq<Publication>) returns (items: seq<CslItem>)
    requires forall k :: 0 <= k < |pubs| ==> Identifiable(pubs[k])
    ensures |items| == |pubs|
    ensures forall k :: 0 <= k < |items| ==> items[k] == CslItemOf(pubs[k])
  {
    items := [];
    for i := 0 to |pubs|
      invariant |items| == i
      invariant forall k :: 0 <= k < i ==> items[k] == CslItemOf(pubs[k])
    {
      var pub := pubs[i];
      var w := Meta(pub);
      var names := FormatAuthorsForCsl(w.authors);
      var item := CslItemOf(pub);
      assert names == item.author;
      items := items + [item.(author := names)];
    }
  }

  // ---------------------------------------------------------------------------
  // Properties

  /** Without a work the item is the entry's own data: its title, journal and
      year, no authors and none of the work's optional fields, and an id that
      starts with `unknown`. */
  lemma ItemWithoutWork(pub: Publication)
    requires pub.openalex.None? && Identifiable(pub)
    ensures var item := CslItemOf(pub);
      && item.title == pub.title && item.containerTitle == pub.journal
      && item.dateParts == [[if pub.year.Some? then Some(pub.year.value as int) else None]]
      && item.author == [] && item.doi.None? && item.volume.None? && item.issue.None?
      && item.page.None? && item.url.None? && item.citationCount.None?
      && item.itemType == "article-journal"
      && StartsWith(item.id, "unknown")
  {
    var item := CslItemOf(pub);
    assert item.id == "unknown" + IdYear(pub) + Take(Lower(Words(IdTitle(pub))[0]), 10);
  }

  /** Every optional field the item carries is a non-empty value of the work, and
      every non-empty one the work has is carried. */
  lemma ItemCarriesWorkFields(pub: Publication)
    requires Identifiable(pub)
    ensures var item := CslItemOf(pub);
            var w := Meta(pub);
      && (item.doi.Some? <==> Truthy(w.doi)) && (item.doi.Some? ==> item.doi == w.doi)
      && (item.volume.Some? <==> Truthy(w.volume)) && (item.volume.Some? ==> item.volume == w.volume)
      && (item.issue.Some? <==> Truthy(w.issue)) && (item.issue.Some? ==> item.issue == w.issue)
      && (item.url.Some? <==> Truthy(w.oaUrl)) && (item.url.Some? ==> item.url == w.oaUrl)
      && (item.page.Some? <==> Truthy(w.firstPage))
      && (item.page.Some? ==> StartsWith(item.page.value, w.firstPage.value))
      && (item.citationCount.Some? <==> w.citedByCount != 0)
  {
    var w := Meta(pub);
    if Truthy(w.firstPage) && Truthy(w.lastPage) {
      var pg := w.firstPage.value + "-" + w.lastPage.value;
      assert pg[..|w.firstPage.value|] == w.firstPage.value;
    }
  }

  /** The type is `manuscript` exactly for a preprint work. */
  lemma ManuscriptIffPreprint(pub: Publication)
    ensures ItemType(pub) == "manuscript" <==> pub.openalex.Some? && pub.openalex.value.workType == Some("preprint")
    ensures ItemType(pub) != "manuscript" ==> ItemType(pub) == "article-journal"
  {
  }
}
