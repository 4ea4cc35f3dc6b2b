/**
 The match scorer: title normalisation and the four-case similarity score of
 `normalize_title` / `compare_titles`.

 The score is kept as a datatype and read as an exact rational, so the acceptance
 thresholds (`> 0.8` after an author+title search, `> 0.9` for a title-only
 candidate) are integer comparisons and nothing depends on floating point.
 */
module TitleMatch {
  import opened Text

  /** Characters that survive `re.sub(r'[^\w\s]', '', ...)`. */
  predicate Kept(c: char) {
    IsWordChar(c) || IsSpace(c)
  }

  /** Drops every character that is neither a word character nor whitespace. */
  function RemovePunctuation(s: string): (r: string)
    decreases |s|
    ensures |r| <= |s|
    ensures forall i :: 0 <= i < |r| ==> Kept(r[i])
  {
    if s == [] then []
    else if Kept(s[0]) then [s[0]] + RemovePunctuation(s[1..])
    else RemovePunctuation(s[1..])
  }

  lemma {:induction false} RemovePunctuationKeepsLowerCase(s: string)
    requires forall i :: 0 <= i < |s| ==> !IsUpper(s[i])
    ensures forall i :: 0 <= i < |RemovePunctuation(s)| ==>
      NormChar(RemovePunctuation(s)[i]) || IsSpace(RemovePunctuation(s)[i])
    decreases |s|
  {
    if s != [] {
      RemovePunctuationKeepsLowerCase(s[1..]);
    }
  }

  /** A lower-case word character: what a normalised title is made of, besides single spaces. */
  predicate NormChar(c: char) {
    IsWordChar(c) && !IsUpper(c)
  }

  /** Lower-case words of word characters separated by single spaces, with no
      leading or trailing space. */
  predicate IsNormalized(s: string) {
    && (forall i :: 0 <= i < |s| ==> NormChar(s[i]) || s[i] == ' ')
    && (s != [] ==> s[0] != ' ' && s[|s| - 1] != ' ')
    && (forall i :: 0 <= i < |s| - 1 ==> s[i] != ' ' || s[i + 1] != ' ')
  }

  /** `normalize_title`: lower-case, strip punctuation, collapse whitespace. */
  function NormalizeTitle(title: string): (r: string)
    ensures IsNormalized(r)
  {
    if title == "" then ""
    else
      var cleaned := RemovePunctuation(Lower(title));
      RemovePunctuationKeepsLowerCase(Lower(title));
      CleanedWordsAreNormal(cleaned);
      JoinNormalWords(Words(cleaned));
      Join(" ", Words(cleaned))
  }

  predicate AllNormChars(w: string) {
    forall i :: 0 <= i < |w| ==> NormChar(w[i])
  }

  lemma {:induction false} CleanedWordsAreNormal(s: string)
    requires forall i :: 0 <= i < |s| ==> NormChar(s[i]) || IsSpace(s[i])
    ensures forall k :: 0 <= k < |Words(s)| ==> AllNormChars(Words(s)[k])
    decreases |s|
  {
    if s != [] {
      if IsSpace(s[0]) {
        CleanedWordsAreNormal(s[1..]);
      } else {
        var j := SkipNonSpaces(s, 0);
        CleanedWordsAreNormal(s[j..]);
      }
    }
  }

  lemma {:induction false} JoinNormalWords(ws: seq<string>)
    requires forall k :: 0 <= k < |ws| ==> ws[k] != [] && AllNormChars(ws[k])
    ensures IsNormalized(Join(" ", ws))
    decreases |ws|
  {
    if |ws| > 1 {
      JoinNormalWords(ws[1..]);
      var rest := Join(" ", ws[1..]);
      assert rest != [] by { JoinNonEmpty(ws[1..]); }
      var s := ws[0] + " " + rest;
      assert Join(" ", ws) == s;
      forall i | 0 <= i < |s| - 1 ensures s[i] != ' ' || s[i + 1] != ' ' {
        if i < |ws[0]| - 1 {
        } else if i == |ws[0]| - 1 {
        } else if i == |ws[0]| {
          assert s[i + 1] == rest[0];
        } else {
          assert s[i] == rest[i - |ws[0]| - 1];
          assert s[i + 1] == rest[i - |ws[0]|];
        }
      }
      assert s[|s| - 1] == rest[|rest| - 1];
    }
  }

  lemma {:induction false} JoinNonEmpty(ws: seq<string>)
    requires ws != [] && ws[0] != []
    ensures Join(" ", ws) != []
  {
  }

  // ---------------------------------------------------------------------------
  // Normalisation is idempotent

  lemma LowerOfNormalized(s: string)
    requires IsNormalized(s)
    ensures Lower(s) == s
  {
  }

  lemma {:induction false} RemovePunctuationKeepsKept(s: string)
    requires forall i :: 0 <= i < |s| ==> Kept(s[i])
    ensures RemovePunctuation(s) == s
    decreases |s|
  {
    if s != [] {
      RemovePunctuationKeepsKept(s[1..]);
    }
  }

  /** On a normalised string, splitting on whitespace and re-joining with single
      spaces gives back the string. */
  lemma {:induction false} JoinWordsOfNormalized(s: string)
    requires IsNormalized(s)
    ensures Join(" ", Words(s)) == s
    decreases |s|
  {
    if s != [] {
      assert !IsSpace(s[0]);
      var j := SkipNonSpaces(s, 0);
      assert j > 0;
      if j == |s| {
        assert Words(s[j..]) == [];
        assert s[..j] == s;
        assert Words(s) == [s];
      } else {
        assert s[j] == ' ';
        var rest := s[j + 1..];
        assert j + 1 < |s|;
        assert rest[0] == s[j + 1] && s[j + 1] != ' ';
        assert IsNormalized(rest) by {
          forall i | 0 <= i < |rest| - 1 ensures rest[i] != ' ' || rest[i + 1] != ' ' {
            assert rest[i] == s[j + 1 + i] && rest[i + 1] == s[j + 2 + i];
          }
        }
        assert s[j..][1..] == rest;
        assert Words(s[j..]) == Words(rest);
        JoinWordsOfNormalized(rest);
        assert Words(rest) != [] by {
          assert !IsSpace(rest[0]);
        }
        assert Words(s) == [s[..j]] + Words(rest);
        assert Join(" ", Words(s)) == s[..j] + " " + Join(" ", Words(rest));
        assert s == s[..j] + " " + rest;
      }
    }
  }

  /** A normalised string is its own normal form. */
  lemma NormalizeFixesNormalized(s: string)
    requires IsNormalized(s)
    ensures NormalizeTitle(s) == s
  {
    if s != "" {
      LowerOfNormalized(s);
      RemovePunctuationKeepsKept(s);
      JoinWordsOfNormalized(s);
    }
  }

  /** `normalize_title` is idempotent. */
  lemma NormalizeIdempotent(title: string)
    ensures NormalizeTitle(NormalizeTitle(title)) == NormalizeTitle(title)
  {
    NormalizeFixesNormalized(NormalizeTitle(title));
  }

  // ---------------------------------------------------------------------------
  // The score

  /** Which branch of `compare_titles` produced the score; `Overlap` carries the
      sizes of the intersection and the union of the two word sets. */
  datatype Score = Zero | Exact | Contained | Overlap(common: nat, total: nat)

  /** The score as the real number `compare_titles` returns. */
  function Value(s: Score): (v: real)
    requires s.Overlap? ==> s.common <= s.total
    ensures 0.0 <= v <= 1.0
  {
    match s
    case Zero => 0.0
    case Exact => 1.0
    case Contained => 0.9
    case Overlap(c, t) => if t > 0 then c as real / t as real else 0.0
  }

  function WordSet(s: string): set<string> {
    set w | w in Words(s)
  }

  /** `compare_titles`. */
  function CompareTitles(title1: string, title2: string): (r: Score)
    ensures r.Overlap? ==> r.common <= r.total && r.total > 0
  {
    if title1 == "" || title2 == "" then Zero
    else
      var norm1 := NormalizeTitle(title1);
      var norm2 := NormalizeTitle(title2);
      if norm1 == norm2 then Exact
      else if Contains(norm2, norm1) || Contains(norm1, norm2) then Contained
      else
        var words1 := WordSet(norm1);
        var words2 := WordSet(norm2);
        if words1 == {} || words2 == {} then Zero
        else
          var common := words1 * words2;
          var total := words1 + words2;
          assert common <= total;
          SubsetCard(common, total);
          assert total != {};
          Overlap(|common|, |total|)
  }

  lemma SubsetCard<T>(a: set<T>, b: set<T>)
    requires a <= b
    ensures |a| <= |b|
  {
    assert b == a + (b - a);
  }

  /** The similarity as a real number in [0, 1]. */
  function Similarity(title1: string, title2: string): (v: real)
    ensures 0.0 <= v <= 1.0
  {
    Value(CompareTitles(title1, title2))
  }

  /** `similarity > num / den`, decided on integers. */
  predicate Exceeds(s: Score, num: nat, den: nat)
    requires den > 0
  {
    match s
    case Zero => false
    case Exact => den > num
    case Contained => 9 * den > 10 * num
    case Overlap(c, t) => t > 0 && c * den > num * t
  }

  /** The integer threshold test agrees with the comparison on reals. */
  lemma ExceedsAgreesWithReal(s: Score, num: nat, den: nat)
    requires den > 0
    requires s.Overlap? ==> s.common <= s.total
    ensures Exceeds(s, num, den) <==> Value(s) > num as real / den as real
  {
    match s
    case Zero =>
      CrossMultiply(0, 1, num, den);
    case Exact =>
      CrossMultiply(1, 1, num, den);
    case Contained =>
      assert 0.9 == 9 as real / 10 as real;
      CrossMultiply(9, 10, num, den);
    case Overlap(c, t) =>
      if t > 0 {
        CrossMultiply(c, t, num, den);
      }
  }

  /** `c / t > num / den` compared without division. */
  lemma CrossMultiply(c: nat, t: nat, num: nat, den: nat)
    requires t > 0 && den > 0
    ensures c as real / t as real > num as real / den as real <==> c * den > num * t
  {
    var x := c as real / t as real;
    var y := num as real / den as real;
    var m := t as real * den as real;
    assert m > 0.0;
    assert x * m == (c * den) as real by {
      assert x * t as real == c as real;
    }
    assert y * m == (num * t) as real by {
      assert y * den as real == num as real;
    }
    ScaleStrict(x, y, m);
  }

  lemma ScaleStrict(x: real, y: real, m: real)
    requires m > 0.0
    ensures x > y <==> x * m > y * m
  {
    assert x * m - y * m == (x - y) * m;
  }

  /** The author+title stage keeps a hit only above 0.8. */
  predicate PassesAuthorTitle(s: Score) { Exceeds(s, 4, 5) }

  /** A title-only candidate is auto-accepted only above 0.9. */
  predicate PassesTitleOnly(s: Score) { Exceeds(s, 9, 10) }

  /** The author+title test is `similarity > 0.8`. */
  lemma PassesAuthorTitleMeans(title1: string, title2: string)
    ensures PassesAuthorTitle(CompareTitles(title1, title2)) <==> Similarity(title1, title2) > 0.8
  {
    ExceedsAgreesWithReal(CompareTitles(title1, title2), 4, 5);
    assert 4 as real / 5 as real == 0.8;
  }

  /** The title-only test is `similarity > 0.9`. */
  lemma PassesTitleOnlyMeans(title1: string, title2: string)
    ensures PassesTitleOnly(CompareTitles(title1, title2)) <==> Similarity(title1, title2) > 0.9
  {
    ExceedsAgreesWithReal(CompareTitles(title1, title2), 9, 10);
    assert 9 as real / 10 as real == 0.9;
  }

  // ---------------------------------------------------------------------------
  // Properties of compare_titles

  lemma EmptyScoresZero(title1: string, title2: string)
    requires title1 == "" || title2 == ""
    ensures CompareTitles(title1, title2) == Zero && Similarity(title1, title2) == 0.0
  {
  }

  lemma EqualNormalFormsScoreOne(title1: string, title2: string)
    requires title1 != "" && title2 != ""
    requires NormalizeTitle(title1) == NormalizeTitle(title2)
    ensures Similarity(title1, title2) == 1.0
  {
  }

  lemma SameTitleScoresOne(title: string)
    requires title != ""
    ensures Similarity(title, title) == 1.0
  {
  }

  lemma ContainedScoresNineTenths(title1: string, title2: string)
    requires title1 != "" && title2 != ""
    requires NormalizeTitle(title1) != NormalizeTitle(title2)
    requires Contains(NormalizeTitle(title2), NormalizeTitle(title1))
    ensures Similarity(title1, title2) == 0.9
  {
  }

  /** `compare_titles` is symmetric. */
  lemma CompareTitlesSymmetric(title1: string, title2: string)
    ensures CompareTitles(title1, title2) == CompareTitles(title2, title1)
  {
    var w1 := WordSet(NormalizeTitle(title1));
    var w2 := WordSet(NormalizeTitle(title2));
    assert w1 * w2 == w2 * w1;
    assert w1 + w2 == w2 + w1;
  }

  /** A non-empty normalised string has at least one word. */
  lemma {:induction false} NormalizedHasWords(s: string)
    requires IsNormalized(s) && s != ""
    ensures WordSet(s) != {}
  {
    assert !IsSpace(s[0]);
    var j := SkipNonSpaces(s, 0);
    assert Words(s) == [s[..j]] + Words(s[j..]);
    assert s[..j] in WordSet(s);
  }

  /** The `Zero` branches are taken exactly when one of the titles is empty: the
      `0.0` return for a side without words can never be reached, because a title
      with no words normalises to "", which every normal form contains. */
  lemma ZeroIffEmpty(title1: string, title2: string)
    ensures CompareTitles(title1, title2) == Zero <==> title1 == "" || title2 == ""
  {
    if title1 != "" && title2 != "" {
      var norm1 := NormalizeTitle(title1);
      var norm2 := NormalizeTitle(title2);
      if norm1 == "" {
        EmptyOccursEverywhere(norm2);
      } else if norm2 == "" {
        EmptyOccursEverywhere(norm1);
      } else {
        NormalizedHasWords(norm1);
        NormalizedHasWords(norm2);
        var w1 := WordSet(norm1);
        var w2 := WordSet(norm2);
      }
    }
  }

  /** Words of a string with no word characters: none. */
  lemma {:induction false} NoWordCharsNoWords(s: string)
    requires forall i :: 0 <= i < |s| ==> IsSpace(s[i])
    ensures Words(s) == []
    decreases |s|
  {
    if s != [] {
      NoWordCharsNoWords(s[1..]);
    }
  }

  lemma {:induction false} RemovePunctuationOfWordless(s: string)
    requires forall i :: 0 <= i < |s| ==> !IsWordChar(s[i])
    ensures forall i :: 0 <= i < |RemovePunctuation(s)| ==> IsSpace(RemovePunctuation(s)[i])
    decreases |s|
  {
    if s != [] {
      RemovePunctuationOfWordless(s[1..]);
    }
  }

  /** A title with no word character (punctuation only, say) normalises to "". */
  lemma WordlessNormalizesToEmpty(title: string)
    requires forall i :: 0 <= i < |title| ==> !IsWordChar(title[i])
    ensures NormalizeTitle(title) == ""
  {
    if title != "" {
      var lowered := Lower(title);
      assert forall i :: 0 <= i < |lowered| ==> !IsWordChar(lowered[i]);
      RemovePunctuationOfWordless(lowered);
      NoWordCharsNoWords(RemovePunctuation(lowered));
    }
  }

  /** The edge case: a non-empty title made only of punctuation scores 0.9 against
      every title whose normal form is non-empty. */
  lemma PunctuationTitleScoresNineTenths(punct: string, other: string)
    requires punct != "" && other != ""
    requires forall i :: 0 <= i < |punct| ==> !IsWordChar(punct[i])
    requires NormalizeTitle(other) != ""
    ensures CompareTitles(punct, other) == Contained
    ensures Similarity(punct, other) == 0.9
  {
    WordlessNormalizesToEmpty(punct);
    EmptyOccursEverywhere(NormalizeTitle(other));
  }

  /** A substring match passes the author+title threshold but not the title-only one. */
  lemma ContainedPassesOnlyAuthorTitle()
    ensures PassesAuthorTitle(Contained) && !PassesTitleOnly(Contained)
  {
  }
}
