/**
 Phase 1 of the verifier: matching each parsed entry against OpenAlex.

 The stages run in a fixed order and each runs only when no earlier one produced a
 work: a DOI lookup, an author-and-title search whose hit must score above 0.8, a
 PubMed search whose DOI is then looked up, and a title search whose top candidate
 is accepted outright only above 0.9 with agreeing years. An entry nothing matches
 is marked for review. An accepted work is attached with confidence High; for a
 preprint, a published version found by title replaces it.

 The remote searches are the fields of `Services`, so that phase 1 is a function
 of the entry and of what the services answer. `Resolve` states the outcome as a
 composition of stages; `ResolveEntry` is the source's step-by-step body, proved to
 compute it, and `RunPhase1` the loop over all entries with its counters.
 */
module Resolver {
  import opened Text
  import opened Records
  import opened TitleMatch
  import opened EntryParser

  /** The remote searches, as functions of the arguments the resolver passes. */
  datatype Services = Services(
    /** OpenAlex work of a DOI (`query_openalex_by_doi`, after its cleaning). */
    byDoi: string -> Option<Work>,
    /** First OpenAlex hit for a first-author surname, a title and a year. */
    byAuthorTitle: (string, string, Option<nat>) -> Option<Work>,
    /** First PubMed id for a title, a first author and a year. */
    searchPubMed: (string, Option<string>, Option<nat>) -> Option<string>,
    /** The DOI PubMed records for an id. */
    pubMedDoi: string -> Option<string>,
    /** The works of a title search, best first. */
    titleCandidates: (string, Option<nat>) -> seq<Work>,
    /** A published article with the given title, if the search finds one. */
    publishedVersion: string -> Option<Work>)

  /** At most this many title candidates are kept (`MAX_CANDIDATES`). */
  const MaxCandidates: nat := 5

  /** The DOI as the lookup sends it: surrounding whitespace, then trailing dots,
      removed. */
  function CleanDoi(doi: string): (r: string)
    ensures |r| <= |Strip(doi)| && r == Strip(doi)[..|r|]
    ensures r != [] ==> r[|r| - 1] != '.'
    ensures forall k :: |r| <= k < |Strip(doi)| ==> Strip(doi)[k] == '.'
  {
    RStripChars(Strip(doi), {'.'})
  }

  /** A DOI without surrounding whitespace or trailing dot is sent unchanged. */
  lemma CleanDoiKeepsClean(doi: string)
    requires doi != [] && !IsSpace(doi[0]) && !IsSpace(doi[|doi| - 1]) && doi[|doi| - 1] != '.'
    ensures CleanDoi(doi) == doi
  {
    assert SkipSpaces(doi, 0) == 0;
    assert doi[0..] == doi;
  }

  /** Python's truthiness of an optional year. */
  predicate YearSet(y: Option<int>) {
    y.Some? && y.value != 0
  }

  /** Two years agree unless both are given and more than one year apart. */
  predicate YearsAgree(orig: Option<nat>, found: Option<int>) {
    var o: Option<int> := if orig.Some? then Some(orig.value as int) else None;
    !(YearSet(o) && YearSet(found))
    || (-1 <= orig.value - found.value <= 1)
  }

  // ---------------------------------------------------------------------------
  // The stages, each as a function of the entry

  /** Stage 1: the DOI lookup, when the entry has a DOI. */
  function DoiStage(pub: Publication, svc: Services): Option<Work> {
    if Truthy(pub.doi) then svc.byDoi(CleanDoi(pub.doi.value)) else None
  }

  /** Stage 1a: the author-and-title hit, kept only when its title scores above 0.8. */
  function AuthorTitleStage(pub: Publication, svc: Services): Option<Work> {
    var author := FirstAuthorSurname(pub.authors);
    if author.Some? && Truthy(pub.title) then
      var hit := svc.byAuthorTitle(author.value, pub.title.value, pub.year);
      if hit.Some? && PassesAuthorTitle(CompareTitles(pub.title.value, OrElse(hit.value.title, ""))) then hit
      else None
    else None
  }

  /** Stage 1b: a PubMed id, its DOI and that DOI's work, each present and non-empty. */
  function PubMedStage(pub: Publication, svc: Services): Option<(string, Work)> {
    if !Truthy(pub.title) then None
    else
      var pmid := svc.searchPubMed(pub.title.value, FirstAuthorSurname(pub.authors), pub.year);
      if !Truthy(pmid) then None
      else
        var doi := svc.pubMedDoi(pmid.value);
        if !Truthy(doi) then None
        else
          var work := svc.byDoi(CleanDoi(doi.value));
          if work.None? then None else Some((doi.value, work.value))
  }

  /** Stage 1c: the title candidates, at most `MaxCandidates`. */
  function TitleCandidates(pub: Publication, svc: Services): (r: seq<Work>)
    ensures |r| <= MaxCandidates
  {
    if Truthy(pub.title) then Take(svc.titleCandidates(pub.title.value, pub.year), MaxCandidates) else []
  }

  /** The top candidate is accepted without review. */
  predicate TitleAccepted(pub: Publication, top: Work)
    requires Truthy(pub.title)
  {
    PassesTitleOnly(CompareTitles(pub.title.value, OrElse(top.title, "")))
    && YearsAgree(pub.year, top.publicationYear)
  }

  /** A work a stage accepted, how, and for the PubMed route the DOI it found. */
  datatype Found = Found(work: Work, how: MatchMethod, foundDoi: Option<string>)

  /** The first of the DOI, author-and-title and PubMed stages that accepts a work. */
  function RemoteMatch(pub: Publication, svc: Services): Option<Found> {
    var byDoi := DoiStage(pub, svc);
    if byDoi.Some? then Some(Found(byDoi.value, ByDoi, None))
    else
      var byAuthor := AuthorTitleStage(pub, svc);
      if byAuthor.Some? then Some(Found(byAuthor.value, ByAuthorTitle, None))
      else
        var byPubMed := PubMedStage(pub, svc);
        if byPubMed.Some? then Some(Found(byPubMed.value.1, ByPubMedDoi, Some(byPubMed.value.0)))
        else None
  }

  /** The stages read only the DOI, the authors, the title and the year. */
  lemma StagesReadQueryFields(p: Publication, q: Publication, svc: Services)
    requires p.doi == q.doi && p.authors == q.authors && p.title == q.title && p.year == q.year
    ensures RemoteMatch(p, svc) == RemoteMatch(q, svc)
    ensures TitleCandidates(p, svc) == TitleCandidates(q, svc)
  {
  }

  /** The first stage that accepts a work, the title stage last. */
  function FirstMatch(pub: Publication, svc: Services): Option<Found> {
    var remote := RemoteMatch(pub, svc);
    if remote.Some? then remote
    else
      var cands := TitleCandidates(pub, svc);
      if Truthy(pub.title) && cands != [] && TitleAccepted(pub, cands[0]) then Some(Found(cands[0], ByTitle, None))
      else None
  }

  /** The entry is a preprint: by its section, or by the type of the work matched. */
  predicate IsPreprint(pub: Publication, work: Work) {
    pub.section == Some("Preprints") || work.workType == Some("preprint")
  }

  /** The identifier the preprint check compares against: a title candidate is
      already projected metadata, which has no `id` entry. */
  function ComparedId(f: Found): Option<string> {
    if f.how == ByTitle then None else f.work.openalexId
  }

  /** The published version that replaces a matched preprint, if any. */
  function Replacement(pub: Publication, svc: Services, f: Found): Option<Work> {
    if !IsPreprint(pub, f.work) then None
    else
      var published := if Truthy(pub.title) then svc.publishedVersion(pub.title.value) else None;
      if published.Some? && published.value.openalexId != ComparedId(f) then published else None
  }

  /** The entry after phase 1. */
  function Resolve(pub: Publication, svc: Services): Publication {
    var m := FirstMatch(pub, svc);
    Store(Staged(pub, svc, m), svc, m)
  }

  /** The entry once the stages found `m`: marked for review with the title
      candidates when nothing matched; otherwise cleared, with the DOI of the PubMed
      route or the candidates of the title stage. */
  function Staged(pub: Publication, svc: Services, m: Option<Found>): Publication {
    match m
    case None => pub.(needsReview := true, candidates := TitleCandidates(pub, svc))
    case Some(f) =>
      pub.(
        needsReview := false,
        doi := if f.how == ByPubMedDoi then f.foundDoi else pub.doi,
        candidates := if f.how == ByTitle then TitleCandidates(pub, svc) else pub.candidates)
  }

  /** Storing the outcome: the work (or its published version) with confidence
      High, or the review verdict. */
  function Store(p: Publication, svc: Services, m: Option<Found>): Publication {
    match m
    case None => p.(confidence := Some(NeedsReview))
    case Some(f) =>
      var replacement := Replacement(p, svc, f);
      p.(
        openalex := if replacement.Some? then replacement else Some(f.work),
        confidence := Some(High),
        matchMethod := Some(f.how),
        preprintNowPublished := if replacement.Some? then true else p.preprintNowPublished)
  }

  // ---------------------------------------------------------------------------
  // The source's step-by-step body

  /** Stages 1, 1a and 1b of one iteration: the DOI lookup, the author-and-title
      search and the PubMed route, each only while nothing was found, the last
      storing the DOI it found. */
  method RemoteStages(input: Publication, svc: Services) returns (pub: Publication, data: Option<Work>, how: Option<MatchMethod>)
    ensures data.Some? <==> how.Some?
    ensures RemoteMatch(input, svc) ==
      if data.Some? then Some(Found(data.value, how.value, if how == Some(ByPubMedDoi) then pub.doi else None)) else None
    ensures pub == input.(doi := pub.doi)
    ensures how != Some(ByPubMedDoi) ==> pub.doi == input.doi
  {
    pub := input;
    data := None;
    how := None;
    var firstAuthor := FirstAuthorSurname(pub.authors);

    if Truthy(pub.doi) {
      data := svc.byDoi(CleanDoi(pub.doi.value));
      if data.Some? {
        how := Some(ByDoi);
      }
    }
    assert data == DoiStage(input, svc);

    if data.None? && firstAuthor.Some? && Truthy(pub.title) {
      data := svc.byAuthorTitle(firstAuthor.value, pub.title.value, pub.year);
      if data.Some? {
        var similarity := CompareTitles(pub.title.value, OrElse(data.value.title, ""));
        if PassesAuthorTitle(similarity) {
          how := Some(ByAuthorTitle);
        } else {
          data := None;
        }
      }
    }
    assert DoiStage(input, svc).None? ==> data == AuthorTitleStage(input, svc);

    if data.None? && Truthy(pub.title) {
      var pmid := svc.searchPubMed(pub.title.value, firstAuthor, pub.year);
      if Truthy(pmid) {
        var pubmedDoi := svc.pubMedDoi(pmid.value);
        if Truthy(pubmedDoi) {
          data := svc.byDoi(CleanDoi(pubmedDoi.value));
          if data.Some? {
            how := Some(ByPubMedDoi);
            pub := pub.(doi := pubmedDoi);
          }
        }
      }
    }
  }

  /** Stage 1c: the title candidates are stored; the top one is accepted when it
      scores above 0.9 with agreeing years, and otherwise the entry is marked for
      review. */
  method TitleStage(input: Publication, svc: Services) returns (pub: Publication, data: Option<Work>)
    requires Truthy(input.title)
    ensures var cands := TitleCandidates(input, svc);
      && (data.Some? <==> cands != [] && TitleAccepted(input, cands[0]))
      && (data.Some? ==> data.value == cands[0])
      && pub == input.(candidates := cands, needsReview := if data.Some? then input.needsReview else true)
  {
    pub := input;
    data := None;
    var candidates := Take(svc.titleCandidates(pub.title.value, pub.year), MaxCandidates);
    pub := pub.(candidates := candidates);
    if candidates != [] {
      var top := candidates[0];
      var similarity := CompareTitles(pub.title.value, OrElse(top.title, ""));
      if PassesTitleOnly(similarity) && YearsAgree(pub.year, top.publicationYear) {
        data := Some(top);
      } else {
        pub := pub.(needsReview := true);
      }
    } else {
      pub := pub.(needsReview := true, candidates := []);
    }
  }

  /** One iteration of the phase-1 loop: the stages in order on a mutable record,
      then storing the match or the review verdict. */
  method ResolveEntry(input: Publication, svc: Services) returns (pub: Publication)
    ensures pub == Resolve(input, svc)
  {
    var projected := false;
    var confidence := NotFound;
    pub := input.(needsReview := false);
    var data, how;
    pub, data, how := RemoteStages(pub, svc);
    StagesReadQueryFields(input, input.(needsReview := false), svc);
    if data.Some? {
      confidence := High;
    }

    if data.None? && Truthy(pub.title) {
      StagesReadQueryFields(input, pub, svc);
      pub, data := TitleStage(pub, svc);
      if data.Some? {
        confidence := High;
        how := Some(ByTitle);
        projected := true;
      }
      assert FirstMatch(input, svc) == if data.Some? then Some(Found(data.value, ByTitle, None)) else None;
    } else if data.None? {
      pub := pub.(needsReview := true, candidates := []);
      assert FirstMatch(input, svc) == None;
    } else {
      assert FirstMatch(input, svc) == RemoteMatch(input, svc);
    }
    ghost var m := FirstMatch(input, svc);
    assert pub == Staged(input, svc, m);
    pub := StoreOutcome(pub, svc, data, confidence, how, projected, m);
  }

  /** Storing the outcome of the stages: the work, its confidence and how it was
      found, replaced by a published version for a preprint; or the review verdict. */
  method StoreOutcome(staged: Publication, svc: Services, data: Option<Work>, confidence: Confidence,
                      how: Option<MatchMethod>, projected: bool, ghost m: Option<Found>) returns (pub: Publication)
    requires m.Some? <==> data.Some?
    requires m.Some? ==> data.value == m.value.work && how == Some(m.value.how) && confidence == High
                         && (projected <==> m.value.how == ByTitle)
    requires staged.needsReview <==> data.None?
    ensures pub == Store(staged, svc, m)
  {
    pub := staged;
    if data.Some? && !pub.needsReview {
      pub := pub.(openalex := data, confidence := Some(confidence), matchMethod := how);
      if pub.section == Some("Preprints") || data.value.workType == Some("preprint") {
        var published := if Truthy(pub.title) then svc.publishedVersion(pub.title.value) else None;
        var dataId := if projected then None else data.value.openalexId;
        if published.Some? && published.value.openalexId != dataId {
          pub := pub.(openalex := published, preprintNowPublished := true);
        }
      }
    } else {
      pub := pub.(confidence := Some(if pub.needsReview then NeedsReview else NotFound));
    }
  }

  // ---------------------------------------------------------------------------
  // The loop and its counters

  /** The phase-1 counters. */
  datatype Stats = Stats(doiMatch: nat, authorTitleMatch: nat, pubMedMatch: nat, titleMatch: nat, needsReview: nat)

  /** The counter a resolved entry adds to. */
  function Bump(s: Stats, p: Publication): Stats {
    if p.needsReview then s.(needsReview := s.needsReview + 1)
    else match p.matchMethod
      case Some(ByDoi) => s.(doiMatch := s.doiMatch + 1)
      case Some(ByAuthorTitle) => s.(authorTitleMatch := s.authorTitleMatch + 1)
      case Some(ByPubMedDoi) => s.(pubMedMatch := s.pubMedMatch + 1)
      case Some(ByTitle) => s.(titleMatch := s.titleMatch + 1)
      case None => s
  }

  /** The counters after the given resolved entries. */
  function Tally(ps: seq<Publication>): Stats
    decreases |ps|
  {
    if ps == [] then Stats(0, 0, 0, 0, 0) else Bump(Tally(ps[..|ps| - 1]), ps[|ps| - 1])
  }

  function Total(s: Stats): nat {
    s.doiMatch + s.authorTitleMatch + s.pubMedMatch + s.titleMatch + s.needsReview
  }

  /** An entry phase 1 has decided: matched by some stage, or up for review. */
  predicate Decided(p: Publication) {
    p.needsReview || p.matchMethod.Some?
  }

  /** `run_phase1`'s loop: every entry resolved in place, the counters kept. */
  method RunPhase1(pubs: array<Publication>, svc: Services) returns (stats: Stats)
    modifies pubs
    ensures forall k :: 0 <= k < pubs.Length ==> pubs[k] == Resolve(old(pubs[k]), svc)
    ensures stats == Tally(pubs[..])
  {
    stats := Stats(0, 0, 0, 0, 0);
    var i := 0;
    while i < pubs.Length
      invariant 0 <= i <= pubs.Length
      invariant forall k :: 0 <= k < i ==> pubs[k] == Resolve(old(pubs[k]), svc)
      invariant forall k :: i <= k < pubs.Length ==> pubs[k] == old(pubs[k])
      invariant stats == Tally(pubs[..i])
    {
      var p := ResolveEntry(pubs[i], svc);
      pubs[i] := p;
      assert pubs[..i + 1][..i] == pubs[..i];
      stats := Bump(stats, p);
      i := i + 1;
    }
    assert pubs[..i] == pubs[..];
  }

  // ---------------------------------------------------------------------------
  // Properties

  /** Each later stage runs only when no earlier one produced a work; a DOI hit is
      always taken. */
  lemma StagesRunInOrder(pub: Publication, svc: Services)
    ensures var f := FirstMatch(pub, svc);
      && (DoiStage(pub, svc).Some? ==> f == Some(Found(DoiStage(pub, svc).value, ByDoi, None)))
      && (f.Some? && f.value.how != ByDoi ==> DoiStage(pub, svc).None?)
      && (f.Some? && (f.value.how == ByPubMedDoi || f.value.how == ByTitle) ==> AuthorTitleStage(pub, svc).None?)
      && (f.Some? && f.value.how == ByTitle ==> PubMedStage(pub, svc).None?)
      && (f.None? ==> DoiStage(pub, svc).None? && AuthorTitleStage(pub, svc).None? && PubMedStage(pub, svc).None?)
  {
  }

  /** An author-and-title hit is kept exactly when the entry has a first author and
      a title and the hit's title scores above 0.8; otherwise it is discarded. */
  lemma AuthorTitleNeedsFourFifths(pub: Publication, svc: Services)
    ensures var author := FirstAuthorSurname(pub.authors);
      AuthorTitleStage(pub, svc).Some? <==>
        && author.Some? && Truthy(pub.title)
        && svc.byAuthorTitle(author.value, pub.title.value, pub.year).Some?
        && Similarity(pub.title.value, OrElse(svc.byAuthorTitle(author.value, pub.title.value, pub.year).value.title, "")) > 0.8
  {
    var author := FirstAuthorSurname(pub.authors);
    if author.Some? && Truthy(pub.title) {
      var hit := svc.byAuthorTitle(author.value, pub.title.value, pub.year);
      if hit.Some? {
        PassesAuthorTitleMeans(pub.title.value, OrElse(hit.value.title, ""));
      }
    }
  }

  /** A title candidate is accepted without review exactly when no earlier stage
      matched, and the top candidate scores above 0.9 and its year is within one of
      the entry's (or either year is missing). */
  lemma TitleAcceptedAboveNineTenths(pub: Publication, svc: Services)
    ensures var f := FirstMatch(pub, svc);
      var cands := TitleCandidates(pub, svc);
      (f.Some? && f.value.how == ByTitle) <==>
        && DoiStage(pub, svc).None? && AuthorTitleStage(pub, svc).None? && PubMedStage(pub, svc).None?
        && Truthy(pub.title) && cands != []
        && Similarity(pub.title.value, OrElse(cands[0].title, "")) > 0.9
        && YearsAgree(pub.year, cands[0].publicationYear)
  {
    var cands := TitleCandidates(pub, svc);
    if Truthy(pub.title) && cands != [] {
      PassesTitleOnlyMeans(pub.title.value, OrElse(cands[0].title, ""));
    }
  }

  /** An entry no stage matches is marked for review and keeps the title
      candidates, none when it has no title. */
  lemma UnmatchedNeedsReview(pub: Publication, svc: Services)
    ensures var r := Resolve(pub, svc);
      && (r.needsReview <==> FirstMatch(pub, svc).None?)
      && (r.needsReview ==> r.candidates == TitleCandidates(pub, svc) && r.openalex == pub.openalex)
      && (r.needsReview && !Truthy(pub.title) ==> r.candidates == [])
  {
  }

  /** After phase 1 an entry that had no work attached is either matched with
      confidence High and a work, or up for review with no work; `Not Found` is
      never assigned. */
  lemma PhaseOneEndState(pub: Publication, svc: Services)
    requires pub.openalex.None?
    ensures var r := Resolve(pub, svc);
      && Decided(r)
      && ((r.confidence == Some(High) && r.openalex.Some? && !r.needsReview && r.matchMethod.Some?)
          || (r.confidence == Some(NeedsReview) && r.openalex.None? && r.needsReview))
      && r.confidence != Some(NotFound)
  {
  }

  /** The PubMed route stores the DOI PubMed gave, which is non-empty. */
  lemma PubMedBackfillsDoi(pub: Publication, svc: Services)
    requires pub.matchMethod.None?
    ensures var r := Resolve(pub, svc);
      r.matchMethod == Some(ByPubMedDoi) ==>
        && PubMedStage(pub, svc).Some?
        && r.doi == Some(PubMedStage(pub, svc).value.0) && Truthy(r.doi)
    ensures Resolve(pub, svc).matchMethod != Some(ByPubMedDoi) ==> Resolve(pub, svc).doi == pub.doi
  {
  }

  /** A preprint's work is replaced only by a published version found by its title
      whose id differs from the matched work's. */
  lemma PreprintReplacedByPublished(pub: Publication, svc: Services)
    requires !pub.preprintNowPublished
    ensures var r := Resolve(pub, svc);
      r.preprintNowPublished <==>
        && FirstMatch(pub, svc).Some?
        && IsPreprint(pub, FirstMatch(pub, svc).value.work)
        && Truthy(pub.title)
        && svc.publishedVersion(pub.title.value).Some?
        && svc.publishedVersion(pub.title.value).value.openalexId != ComparedId(FirstMatch(pub, svc).value)
    ensures var r := Resolve(pub, svc);
      r.preprintNowPublished ==> r.openalex == svc.publishedVersion(pub.title.value)
  {
  }

  /** Every resolved entry is decided, matched or for review but not both. */
  lemma ResolvedIsDecided(pub: Publication, svc: Services)
    ensures Decided(Resolve(pub, svc))
    ensures Resolve(pub, svc).needsReview ==> Resolve(pub, svc).confidence == Some(NeedsReview)
    ensures !Resolve(pub, svc).needsReview ==> Resolve(pub, svc).confidence == Some(High)
  {
  }

  /** When every entry is decided the counters add up to the number of entries. */
  lemma {:induction false} TallyCountsEveryEntry(ps: seq<Publication>)
    requires forall k :: 0 <= k < |ps| ==> Decided(ps[k])
    ensures Total(Tally(ps)) == |ps|
    decreases |ps|
  {
    if ps != [] {
      TallyCountsEveryEntry(ps[..|ps| - 1]);
    }
  }

  /** The counters of a run add up to the number of entries. */
  lemma RunCountsEveryEntry(before: seq<Publication>, svc: Services)
    ensures var after := seq(|before|, k requires 0 <= k < |before| => Resolve(before[k], svc));
      Total(Tally(after)) == |before|
  {
    var after := seq(|before|, k requires 0 <= k < |before| => Resolve(before[k], svc));
    forall k | 0 <= k < |after| ensures Decided(after[k]) {
      ResolvedIsDecided(before[k], svc);
    }
    TallyCountsEveryEntry(after);
  }
}
