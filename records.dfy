/**
 The records the verification pipeline passes between its stages.

 A `Work` is the metadata of one OpenAlex work as the pipeline keeps it after
 projecting the API's JSON (the projection itself is not modelled). A
 `Publication` is one entry of the hand-written list: the fields the parser fills
 in, followed by the fields phase 1 and phase 2 of the verifier set on it.
 Absent dictionary keys and `None` values are both `None` here.
 */
module Records {
  import opened Text

  /** Metadata of one OpenAlex work. `openalexId` is the work's `id`. */
  datatype Work = Work(
    openalexId: Option<string>,
    title: Option<string>,
    publicationYear: Option<int>,
    workType: Option<string>,
    doi: Option<string>,
    citedByCount: int,
    authors: seq<string>,
    journal: Option<string>,
    volume: Option<string>,
    issue: Option<string>,
    firstPage: Option<string>,
    lastPage: Option<string>,
    oaUrl: Option<string>,
    isOa: bool)

  /** The `match_confidence` labels. */
  datatype Confidence = High | Medium | Manual | Original | NotFound | NeedsReview

  /** The `match_method` labels of phase 1: `DOI`, `Author+Title`, `PubMed→DOI`, `Title`. */
  datatype MatchMethod = ByDoi | ByAuthorTitle | ByPubMedDoi | ByTitle

  /** One publication entry. `confidence` and `matchMethod` are absent until phase 1 sets them. */
  datatype Publication = Publication(
    entryNum: nat,
    section: Option<string>,
    rawContent: string,
    authors: Option<string>,
    year: Option<nat>,
    title: Option<string>,
    journal: Option<string>,
    doi: Option<string>,
    url: Option<string>,
    volume: Option<string>,
    issue: Option<string>,
    pages: Option<string>,
    needsReview: bool,
    candidates: seq<Work>,
    openalex: Option<Work>,
    confidence: Option<Confidence>,
    matchMethod: Option<MatchMethod>,
    preprintNowPublished: bool)

  /** Python truthiness of an optional year: `0` is as good as missing. */
  predicate YearTruthy(y: Option<int>) {
    y.Some? && y.value != 0
  }
}
