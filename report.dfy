/**
 The summary of the discrepancy report.

 Every entry falls into exactly one bucket: not found when it has no work, no
 issues when its confidence is High, a minor discrepancy when it is Medium, and
 needs review otherwise; preprints with a published version are counted on the
 side. `SummarizeReport` is the source's counting loop, proved to compute the
 bucket counts, which add up to the number of entries.
 */
module Report {
  import opened Text
  import opened Records

  datatype Bucket = NoIssues | MinorDiscrepancy | ForReview | Missing

  /** The bucket of one entry; an entry without a confidence label is read as
      `Not Found` but still counted by its work. */
  function BucketOf(p: Publication): Bucket {
    if p.openalex.None? then Missing
    else if p.confidence == Some(High) then NoIssues
    else if p.confidence == Some(Medium) then MinorDiscrepancy
    else ForReview
  }

  /** How many of `ps` fall into bucket `b`. */
  function Count(ps: seq<Publication>, b: Bucket): (n: nat)
    decreases |ps|
    ensures n <= |ps|
  {
    if ps == [] then 0
    else Count(ps[..|ps| - 1], b) + (if BucketOf(ps[|ps| - 1]) == b then 1 else 0)
  }

  /** How many of `ps` are preprints with a published version. */
  function PublishedPreprints(ps: seq<Publication>): (n: nat)
    decreases |ps|
    ensures n <= |ps|
  {
    if ps == [] then 0
    else PublishedPreprints(ps[..|ps| - 1]) + (if ps[|ps| - 1].preprintNowPublished then 1 else 0)
  }

  datatype Summary = Summary(total: nat, noIssues: nat, minorDiscrepancies: nat, needsReview: nat,
                             notFound: nat, preprintsPublished: nat)

  /** The counters of `generate_discrepancy_report`, one pass over the entries. */
  method SummarizeReport(ps: seq<Publication>) returns (s: Summary)
    ensures s.total == |ps|
    ensures s.noIssues == Count(ps, NoIssues) && s.minorDiscrepancies == Count(ps, MinorDiscrepancy)
    ensures s.needsReview == Count(ps, ForReview) && s.notFound == Count(ps, Missing)
    ensures s.preprintsPublished == PublishedPreprints(ps)
  {
    var noIssues, minor, needsReview, notFound, preprints := 0, 0, 0, 0, 0;
    for i := 0 to |ps|
      invariant noIssues == Count(ps[..i], NoIssues) && minor == Count(ps[..i], MinorDiscrepancy)
      invariant needsReview == Count(ps[..i], ForReview) && notFound == Count(ps[..i], Missing)
      invariant preprints == PublishedPreprints(ps[..i])
    {
      var p := ps[i];
      assert ps[..i + 1][..i] == ps[..i];
      if p.openalex.None? {
        notFound := notFound + 1;
      } else if p.confidence == Some(High) {
        noIssues := noIssues + 1;
      } else if p.confidence == Some(Medium) {
        minor := minor + 1;
      } else {
        needsReview := needsReview + 1;
      }
      if p.preprintNowPublished {
        preprints := preprints + 1;
      }
    }
    assert ps[..|ps|] == ps;
    s := Summary(|ps|, noIssues, minor, needsReview, notFound, preprints);
  }

  /** The four buckets partition the entries: their counts add up to the total. */
  lemma {:induction false} BucketsPartition(ps: seq<Publication>)
    ensures Count(ps, NoIssues) + Count(ps, MinorDiscrepancy) + Count(ps, ForReview) + Count(ps, Missing) == |ps|
    decreases |ps|
  {
    if ps != [] {
      BucketsPartition(ps[..|ps| - 1]);
    }
  }

  /** Counting distributes over concatenation. */
  lemma {:induction false} CountAppend(a: seq<Publication>, c: seq<Publication>, b: Bucket)
    ensures Count(a + c, b) == Count(a, b) + Count(c, b)
    decreases |c|
  {
    if c == [] {
      assert a + c == a;
    } else {
      assert (a + c)[..|a + c| - 1] == a + c[..|c| - 1];
      CountAppend(a, c[..|c| - 1], b);
    }
  }

  /** An entry is counted in its bucket and in no other. */
  lemma CountSingle(p: Publication, b: Bucket)
    ensures Count([p], b) == if BucketOf(p) == b then 1 else 0
  {
    assert [p][..0] == [];
  }

  /** The buckets of entries as phase 2 leaves them: High is "no issues", a
      Manual choice is counted under "needs manual review", and an entry kept
      original, not found or still up for review is "not found"; Medium, which
      no phase assigns, never occurs. */
  lemma FinalBuckets(p: Publication)
    requires || ((p.confidence == Some(High) || p.confidence == Some(Manual)) && p.openalex.Some?)
             || ((p.confidence == Some(Original) || p.confidence == Some(NotFound)
                  || p.confidence == Some(NeedsReview)) && p.openalex.None?)
    ensures BucketOf(p) == NoIssues <==> p.confidence == Some(High)
    ensures BucketOf(p) == ForReview <==> p.confidence == Some(Manual)
    ensures BucketOf(p) == Missing <==> p.openalex.None?
    ensures BucketOf(p) != MinorDiscrepancy
  {
  }
}
