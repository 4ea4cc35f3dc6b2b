/**
 Phase 2 of the verifier: applying the choices read from the manual-review file.

 Each entry whose number has a selection takes the chosen candidate, the work a
 typed DOI looks up, or nothing at all ("keep the original"). An entry still up
 for review with no selection and no work falls back to its original text.
 `Apply` states what happens to one entry, `ApplySelections` is the source's loop
 over all entries, updating each in place.
 */
module Phase2 {
  import opened Text
  import opened Records
  import opened ReviewReader
  import Resolver

  /** The selection recorded for an entry number, if any. */
  function Lookup(selections: map<nat, Selection>, n: nat): (r: Option<Selection>)
    ensures r.Some? <==> n in selections
    ensures r.Some? ==> r.value == selections[n]
  {
    if n in selections then Some(selections[n]) else None
  }

  /** One entry after phase 2, given its selection and the DOI lookup. A typed DOI
      is looked up as `query_openalex_by_doi` sends it, through `Resolver.CleanDoi`,
      so `byDoi` is the same oracle as the resolver's. */
  function Apply(pub: Publication, sel: Option<Selection>, byDoi: string -> Option<Work>): Publication {
    match sel
    case Some(ChosenOption(k)) =>
      if 1 <= k <= |pub.candidates| then
        pub.(openalex := Some(pub.candidates[k - 1]), confidence := Some(Manual), needsReview := false)
      else pub
    case Some(ManualDoi(doi)) =>
      if byDoi(Resolver.CleanDoi(doi)).Some? then
        pub.(openalex := byDoi(Resolver.CleanDoi(doi)), confidence := Some(Manual), needsReview := false)
      else pub.(confidence := Some(NotFound))
    case Some(NoneOfThese) =>
      pub.(openalex := None, confidence := Some(Original), needsReview := false)
    case None =>
      if pub.needsReview && pub.openalex.None? then pub.(openalex := None, confidence := Some(Original))
      else pub
  }

  /** The loop of `run_phase2` that applies the selections, entry by entry in place. */
  method ApplySelections(pubs: array<Publication>, selections: map<nat, Selection>, byDoi: string -> Option<Work>)
    modifies pubs
    ensures forall k :: 0 <= k < pubs.Length ==>
      pubs[k] == Apply(old(pubs[k]), Lookup(selections, old(pubs[k]).entryNum), byDoi)
  {
    var i := 0;
    while i < pubs.Length
      invariant 0 <= i <= pubs.Length
      invariant forall k :: 0 <= k < i ==>
        pubs[k] == Apply(old(pubs[k]), Lookup(selections, old(pubs[k]).entryNum), byDoi)
      invariant forall k :: i <= k < pubs.Length ==> pubs[k] == old(pubs[k])
    {
      var pub := pubs[i];
      var n := pub.entryNum;
      if n in selections {
        var sel := selections[n];
        match sel {
          case ChosenOption(num) =>
            var idx := num - 1;
            if 0 <= idx < |pub.candidates| {
              pub := pub.(openalex := Some(pub.candidates[idx]));
              pub := pub.(confidence := Some(Manual));
              pub := pub.(needsReview := false);
            }
          case ManualDoi(doi) =>
            var data := byDoi(Resolver.CleanDoi(doi));
            if data.Some? {
              pub := pub.(openalex := data);
              pub := pub.(confidence := Some(Manual));
              pub := pub.(needsReview := false);
            } else {
              pub := pub.(confidence := Some(NotFound));
            }
          case NoneOfThese =>
            pub := pub.(openalex := None);
            pub := pub.(confidence := Some(Original));
            pub := pub.(needsReview := false);
        }
      } else if pub.needsReview && pub.openalex.None? {
        pub := pub.(openalex := None);
        pub := pub.(confidence := Some(Original));
      }
      pubs[i] := pub;
      i := i + 1;
    }
  }

  // ---------------------------------------------------------------------------
  // Properties

  /** Everything phase 2 never touches: the parsed fields, the candidates, the
      matching method and the preprint flag. */
  predicate SameEntry(a: Publication, b: Publication) {
    a.entryNum == b.entryNum && a.section == b.section && a.rawContent == b.rawContent
    && a.authors == b.authors && a.year == b.year && a.title == b.title && a.journal == b.journal
    && a.doi == b.doi && a.url == b.url && a.volume == b.volume && a.issue == b.issue
    && a.pages == b.pages && a.candidates == b.candidates && a.matchMethod == b.matchMethod
    && a.preprintNowPublished == b.preprintNowPublished
  }

  lemma ApplyKeepsEntry(pub: Publication, sel: Option<Selection>, byDoi: string -> Option<Work>)
    ensures SameEntry(Apply(pub, sel, byDoi), pub)
  {
  }

  /** A chosen option in range adopts that candidate and settles the entry as
      Manual; an option out of range changes nothing. */
  lemma ChosenOptionAdopted(pub: Publication, k: nat, byDoi: string -> Option<Work>)
    ensures var r := Apply(pub, Some(ChosenOption(k)), byDoi);
      if 1 <= k <= |pub.candidates| then
        r.openalex == Some(pub.candidates[k - 1]) && r.confidence == Some(Manual) && !r.needsReview
      else r == pub
  {
  }

  /** A typed DOI, cleaned, settles the entry as Manual with the work it looks up,
      or marks it Not Found, leaving its work and its review flag as they were. */
  lemma ManualDoiLookedUp(pub: Publication, doi: string, byDoi: string -> Option<Work>)
    ensures var r := Apply(pub, Some(ManualDoi(doi)), byDoi); var found := byDoi(Resolver.CleanDoi(doi));
      && (r.confidence == Some(Manual) <==> found.Some?)
      && (found.Some? ==> r.openalex == found && !r.needsReview)
      && (found.None? ==> r.confidence == Some(NotFound) && r.openalex == pub.openalex
                          && r.needsReview == pub.needsReview)
  {
  }

  /** "None of these" drops any work and keeps the original entry. */
  lemma NoneKeepsOriginal(pub: Publication, byDoi: string -> Option<Work>)
    ensures var r := Apply(pub, Some(NoneOfThese), byDoi);
      r.openalex.None? && r.confidence == Some(Original) && !r.needsReview
  {
  }

  /** Without a selection, an entry up for review with no work keeps its original
      text (and stays flagged); any other entry is left as it is. */
  lemma UnselectedEntry(pub: Publication, byDoi: string -> Option<Work>)
    ensures var r := Apply(pub, None, byDoi);
      if pub.needsReview && pub.openalex.None? then
        r.confidence == Some(Original) && r.needsReview && r.openalex.None?
      else r == pub
  {
  }

  /** What phase 1 leaves: matched with confidence High and a work, or up for
      review without one. */
  predicate PhaseOneOutcome(p: Publication) {
    || (p.confidence == Some(High) && p.openalex.Some? && !p.needsReview)
    || (p.confidence == Some(NeedsReview) && p.openalex.None? && p.needsReview)
  }

  /** After phase 2 an entry is matched (High or Manual, with a work), kept
      original or not found (without a work), or, only when its selection named
      an option it does not have, still up for review. Selections come from the
      review file, which lists only the entries up for review. */
  lemma PhaseTwoEndState(pub: Publication, sel: Option<Selection>, byDoi: string -> Option<Work>)
    requires PhaseOneOutcome(pub)
    requires sel.Some? ==> pub.needsReview
    ensures var r := Apply(pub, sel, byDoi);
      || ((r.confidence == Some(High) || r.confidence == Some(Manual)) && r.openalex.Some?)
      || ((r.confidence == Some(Original) || r.confidence == Some(NotFound)) && r.openalex.None?)
      || (r.confidence == Some(NeedsReview) && r.openalex.None? && r.needsReview)
    ensures var r := Apply(pub, sel, byDoi);
      r.confidence == Some(NeedsReview) <==>
        pub.needsReview && sel.Some? && sel.value.ChosenOption?
        && !(1 <= sel.value.optionNum <= |pub.candidates|)
    ensures var r := Apply(pub, sel, byDoi);
      (r.confidence == Some(Manual) || r.confidence == Some(High)) <==> r.openalex.Some?
  {
  }
}
