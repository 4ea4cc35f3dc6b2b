# Publication verification pipeline — a Dafny model

This project models the core of a small pipeline that keeps a researcher's list of
publications accurate and publishes it. Three parts are modelled:

- **The verifier**, `archive/verify_publications.py`. It works in several steps:
  - It reads a Markdown list of numbered entries (`[n] Authors (year) **Title** *Journal* …`) grouped under headers.
  - It parses each entry into a record: year, link, DOI, title, journal, authors and volume.
  - It resolves each record against the bibliographic services. It tries, in order: by DOI, by first-author surname and title, a PubMed DOI back-fill, and title-only candidates. It scores titles with a word-set similarity.
  - It writes a manual-review file for the entries it could not settle, reads back the boxes a person ticked, and applies those selections.
  - It summarises the outcome into report buckets and regroups the list for an updated Markdown file. It also builds CSL-JSON items.
- **The page generator**, `generate_papers_md.py`. It reads CSL-JSON items, recovers their entry numbers and numbers the rest, groups them by year, and renders the papers page.
- **The enricher**, `enrich_from_openalex.py`. It adds citation counts and open-access links to the CSL-JSON items, through a DOI cache that is either loaded or refreshed.

The remote services are parameters of the model. They are pure functions from a query to an optional answer: the `Services` record in `Resolver`, `byDoi` in `Phase2` and `lookup` in `Enrich`. A run is therefore a function of its input and of what the services answer.

Each regular expression the source applies is written out as a small scanner. Where the source relies on the first match, a leftmost-search function `FindFirst` gives exactly `re.search`'s choice of match.

The modules and their files:

| module | file | models |
|---|---|---|
| `Text` | `text.dfy` | string helpers, Python truthiness, `or`, strip, split and join |
| `Records` | `records.dfy` | the publication record, the work found for it, CSL items |
| `TitleMatch` | `title_match.dfy` | `normalize_title`, `compare_titles` |
| `Doi` | `doi.dfy` | `extract_doi_from_url` |
| `EntryParser` | `entry_parser.dfy` | `parse_entry`, `extract_first_author_surname` |
| `PublicationList` | `publication_list.dfy` | `parse_markdown_publications` |
| `Resolver` | `resolver.dfy` | `run_phase1` |
| `ReviewWriter` | `review_writer.dfy` | `generate_manual_review` |
| `ReviewReader` | `review_reader.dfy` | `parse_manual_review` |
| `ReviewRoundTrip` | `review_roundtrip.dfy` | what reading a written review file returns |
| `Phase2` | `phase2.dfy` | `run_phase2` |
| `Report` | `report.dfy` | the summary counts of `generate_discrepancy_report` |
| `Csl` | `csl.dfy` | `format_authors_for_csl`, `create_csl_json` |
| `Grouping` | `grouping.dfy` | year dictionaries and the stable descending sort |
| `UpdatedList` | `updated_list.dfy` | `generate_updated_markdown`, `format_authors_for_markdown` |
| `PapersPage` | `papers_page.dfy` | all of `generate_papers_md.py` |
| `Enrich` | `enrich.dfy` | `enrich_publications`, the DOI prefix stripping of `query_openalex` |

Some steps loop over and update their data in place: reading the list, resolving entries, writing and reading the review file, applying selections, numbering and grouping the page, and enriching items. Those steps are methods with loop invariants. Each method is proved equal to a specification function, and the properties are proved about those functions.

Where the code and its documentation disagree, the model follows the code. The one exception is the journal pattern of `parse_entry`: the record takes the journal from the corrected pattern, and the pattern as written is modelled beside it (see "## Findings"). The cases where the model follows the code:

- **A later ticked box overwrites an earlier one** for the same paper, because the reader assigns into a dictionary. The documentation says the first ticked box wins. See `ReviewReader.LaterSelectionWins`.
- **An auto-accepted title match keeps its candidate list.**
- **An option number beyond the candidate list leaves the entry at "needs review".**
- **A header whose year is not a number** (`int(section)` raising) is the `Failure` result of `EntryParser.EntryYear`. It is not a precondition.
- **The preprint check compares the published version's id against none** when the match came from the title stage. Title-stage data is extracted metadata, which has no `id` key.

## Model

| member | source | states |
|---|---|---|
| TitleMatch.NormalizeTitle | archive/verify_publications.py:510-516 | the result is normalised: lower-case word characters in words separated by single spaces, with no leading or trailing space |
| TitleMatch.RemovePunctuation | archive/verify_publications.py:515 | the result is no longer than the input and holds only word and whitespace characters |
| TitleMatch.NormalizeFixesNormalized | archive/verify_publications.py:510-516 | a normalised string is its own normal form |
| TitleMatch.NormalizeIdempotent | archive/verify_publications.py:510-516 | normalising twice is the same as normalising once |
| TitleMatch.CompareTitles | archive/verify_publications.py:534-544 | a word-overlap score has an intersection no larger than its union, and a non-empty union |
| TitleMatch.Similarity | archive/verify_publications.py:519-544 | the similarity lies in [0, 1] |
| TitleMatch.ExceedsAgreesWithReal | archive/verify_publications.py:1089 | the integer threshold test agrees with `similarity > num/den` on reals |
| TitleMatch.PassesAuthorTitleMeans | archive/verify_publications.py:1034-1035 | the author+title test holds iff the similarity is above 0.8 |
| TitleMatch.PassesTitleOnlyMeans | archive/verify_publications.py:1081-1089 | the title-only test holds iff the similarity is above 0.9 |
| TitleMatch.EmptyScoresZero | archive/verify_publications.py:521-522 | an empty title on either side scores 0 |
| TitleMatch.EqualNormalFormsScoreOne | archive/verify_publications.py:524-528 | titles with equal normal forms score 1 |
| TitleMatch.SameTitleScoresOne | archive/verify_publications.py:527-528 | a non-empty title scores 1 against itself |
| TitleMatch.ContainedScoresNineTenths | archive/verify_publications.py:531-532 | different titles, one normal form inside the other, score exactly 0.9 |
| TitleMatch.CompareTitlesSymmetric | archive/verify_publications.py:519-544 | the score does not depend on the order of the two titles |
| TitleMatch.ZeroIffEmpty | archive/verify_publications.py:521-539 | the score is 0 iff a title is empty; the `0.0` return for a side without words is unreachable |
| TitleMatch.WordlessNormalizesToEmpty | archive/verify_publications.py:512-516 | a title without word characters normalises to "" |
| TitleMatch.PunctuationTitleScoresNineTenths | archive/verify_publications.py:527-532 | a non-empty punctuation-only title scores 0.9 against every title with a non-empty normal form |
| TitleMatch.ContainedPassesOnlyAuthorTitle | archive/verify_publications.py:1089 | a containment score passes the 0.8 test and fails the 0.9 test |
| Doi.BodyEnd | archive/verify_publications.py:63 | a DOI body is `10.`, at least four digits, `/` and a non-empty run of non-stop characters that ends at a stop character or at the end of the text |
| Doi.MatchAt | archive/verify_publications.py:63-76 | a match holds at least nine characters and is shaped like a DOI |
| Doi.SegmentMatch | archive/verify_publications.py:70 | the position the optional segments lead to starts a DOI body |
| Doi.Search | archive/verify_publications.py:80-82 | a found group holds at least nine characters and is shaped like a DOI |
| Doi.SearchLeftmost | archive/verify_publications.py:80-82 | a row's search finds nothing iff the row matches nowhere, otherwise it returns the match at the leftmost matching position |
| Doi.Cleaned | archive/verify_publications.py:84-87 | a kept result is the match without its trailing `)].,;*`, shaped like a DOI |
| Doi.StrippedMatchLooksLikeDoi | archive/verify_publications.py:84-86 | stripping the trailing junk off a match never fails the shape check |
| Doi.FromRules | archive/verify_publications.py:79-87 | a DOI found by the table starts with `10.`, contains `/` and has no trailing junk |
| Doi.FromRulesTakesFirstMatchingRow | archive/verify_publications.py:79-87 | when a row's search succeeds, the table from that row on returns its match without the trailing junk |
| Doi.TableDoiShape | archive/verify_publications.py:62-87 | a DOI from the table has the DOI shape and no trailing junk |
| Doi.NatureDoi | archive/verify_publications.py:90-92 | the Nature reconstruction starts with `10.1038/` |
| Doi.NatureFallbackShape | archive/verify_publications.py:89-92 | when no table row matches, the result is the Nature reconstruction |
| Doi.ExtractDoiFromUrl | archive/verify_publications.py:56-94 | an empty URL gives none; any result is shaped like a DOI |
| Doi.UpperCaseRowRedundant | archive/verify_publications.py:64-65 | under case-insensitive search the `DOI:` row finds exactly what the `doi:` row finds |
| EntryParser.YearInText | archive/verify_publications.py:162-164 | none iff the text has no `(dddd)`; otherwise the value of the digits of the first occurrence |
| EntryParser.EntryYear | archive/verify_publications.py:159-164 | fails iff the section names a year that is not all digits; a numeric section gives its value; otherwise the year comes from the text |
| EntryParser.LinkUrl | archive/verify_publications.py:167-169 | a link starts with `http` in any case, has at least 8 characters and holds no `)`; none iff the link pattern matches nowhere, otherwise the URL of the leftmost match |
| EntryParser.TrimmedTextDoi | archive/verify_publications.py:176 | trailing `.,;)` are removed and the DOI shape is kept |
| EntryParser.DoiInText | archive/verify_publications.py:173-176 | a DOI in the text has the DOI shape, no whitespace or `]`, and no trailing `.,;)` |
| EntryParser.DoiInTextLeftmost | archive/verify_publications.py:173-176 | none iff the text-DOI pattern matches nowhere; otherwise the trimmed match at the leftmost matching position |
| EntryParser.BoldSpans | archive/verify_publications.py:180 | every bold span is non-empty and free of `*` |
| EntryParser.FirstTitle | archive/verify_publications.py:181-190 | the first stripped bold span that qualifies as a title; none iff no span qualifies |
| EntryParser.CutAtVenue | archive/verify_publications.py:199 | the longest prefix that has no venue marker, ending at the first marker |
| EntryParser.TitleEnd | archive/verify_publications.py:195 | the first position after the start where a title terminator matches |
| EntryParser.CleanTitle | archive/verify_publications.py:197-202 | a kept title is longer than 10 characters and does not end in `.` |
| EntryParser.TitleAfterYear | archive/verify_publications.py:193-202 | no year in parentheses means no fallback title; a title found is longer than 10 characters and does not end in `.` |
| EntryParser.Title | archive/verify_publications.py:178-202 | a bold title is used whenever one qualifies, otherwise the title found after the year; any title has at least 10 characters |
| EntryParser.JournalAsWritten | archive/verify_publications.py:205-210 | the first italic span as the source's pattern finds it; never a link, never holding `*` |
| EntryParser.Journal | archive/verify_publications.py:205-210 | the first italic span whose opening star is not part of a bold marker; never a link, never holding `*` |
| EntryParser.Authors | archive/verify_publications.py:213-215 | the stripped text before a year in parentheses; none iff there is no such year |
| EntryParser.Volume | archive/verify_publications.py:218-222 | the `volume(issue):pages` match at the leftmost matching position: digits, digits, non-empty pages; none iff there is no match |
| EntryParser.ParseEntry | archive/verify_publications.py:141-224 | fails iff the section's year is not a number; the journal comes from the corrected pattern `Journal` |
| EntryParser.ParseEntryFields | archive/verify_publications.py:141-224 | a parsed record carries its number, text and section, the year of the section or the text, the link, the link's DOI or else the DOI in the text, the authors, title and journal their patterns find, and the volume, issue and pages of the first volume match |
| EntryParser.FirstAuthor | archive/verify_publications.py:351 | the prefix of the author list up to the first separator |
| EntryParser.LeadingSurname | archive/verify_publications.py:358-360 | a capitalised run of surname characters at the start; none iff there is none |
| EntryParser.FirstAuthorSurname | archive/verify_publications.py:339-362 | no author list means no surname; a result is a surname |
| EntryParser.SurnameOfLeadingName | archive/verify_publications.py:339-362 | a list starting with a surname, bold or not, yields that surname |
| EntryParser.BoldThenItalicLosesJournal | archive/verify_publications.py:205-210 | as written, `**Title** *Journal*` yields the empty journal |
| EntryParser.BoldThenItalicKeepsJournal | archive/verify_publications.py:205-210 | corrected, `**Title** *Journal*` yields the journal |
| PublicationList.EntryStart | archive/verify_publications.py:119-122 | an entry line is `[digits]` followed by non-empty text, and the number is those digits |
| PublicationList.ContinuationEnd | archive/verify_publications.py:126-128 | the continuation lines run exactly up to the first line that is not one |
| PublicationList.GroupsFrom | archive/verify_publications.py:109-136 | every entry starts at a line of the file |
| PublicationList.AppendContinuation | archive/verify_publications.py:125-128 | the inner loop consumes the continuation lines and joins them onto the entry |
| PublicationList.ParseLines | archive/verify_publications.py:108-138 | the reading loop parses exactly the grouped entries, stopping at the first failure |
| PublicationList.ParseMarkdownPublications | archive/verify_publications.py:97-138 | the result is the parse of the entries of the file's lines |
| PublicationList.ParseAllFails | archive/verify_publications.py:131-133 | parsing fails iff some entry fails |
| PublicationList.ParseAllSucceeds | archive/verify_publications.py:131-133 | a success holds one record per entry, in order |
| PublicationList.GroupsInOrder | archive/verify_publications.py:109-136 | entries come in file order |
| PublicationList.GroupsTexts | archive/verify_publications.py:119-128 | each entry carries its line's number and its joined text |
| PublicationList.GroupsSections | archive/verify_publications.py:113-116 | each entry carries the last header above it |
| PublicationList.FileOrderAndSections | archive/verify_publications.py:106-138 | number, text, section and file order of every entry, together |
| Resolver.CleanDoi | archive/verify_publications.py:230 | the stripped DOI without its trailing dots |
| Resolver.CleanDoiKeepsClean | archive/verify_publications.py:230 | a DOI without outer spaces or a trailing dot is unchanged |
| Resolver.TitleCandidates | archive/verify_publications.py:1074-1075 | at most five candidates are kept |
| Resolver.StagesReadQueryFields | archive/verify_publications.py:1007-1074 | the lookups depend only on the DOI, authors, title and year |
| Resolver.RemoteStages | archive/verify_publications.py:1012-1067 | the three remote stages, in order, find what `RemoteMatch` says; only a PubMed match changes the DOI |
| Resolver.TitleStage | archive/verify_publications.py:1072-1105 | the top candidate is accepted iff it passes the title test; candidates are stored and a miss flags review |
| Resolver.StoreOutcome | archive/verify_publications.py:1113-1132 | the stored record is `Store` of the match, including the preprint replacement |
| Resolver.ResolveEntry | archive/verify_publications.py:1001-1132 | one entry's phase 1 equals `Resolve` |
| Resolver.RunPhase1 | archive/verify_publications.py:998-1132 | every entry becomes its `Resolve`, and the counts are the tally of the result |
| Resolver.StagesRunInOrder | archive/verify_publications.py:1012-1072 | a later stage is used only when every earlier stage found nothing |
| Resolver.AuthorTitleNeedsFourFifths | archive/verify_publications.py:1024-1041 | an author+title match needs a surname, a title and similarity above 0.8 |
| Resolver.TitleAcceptedAboveNineTenths | archive/verify_publications.py:1078-1095 | a title match happens iff the earlier stages miss and the top candidate is above 0.9 with an agreeing year |
| Resolver.UnmatchedNeedsReview | archive/verify_publications.py:1096-1111 | review is flagged iff nothing matched; a flagged record keeps the candidates and its old data |
| Resolver.PhaseOneEndState | archive/verify_publications.py:1113-1132 | a record ends matched with high confidence or flagged for review, never "not found" |
| Resolver.PubMedBackfillsDoi | archive/verify_publications.py:1057-1066 | a PubMed match stores the DOI PubMed gave; any other outcome keeps the DOI |
| Resolver.PreprintReplacedByPublished | archive/verify_publications.py:1123-1130 | a preprint is replaced iff a published version with a different id exists |
| Resolver.ResolvedIsDecided | archive/verify_publications.py:1113-1132 | confidence is high when matched and "needs review" when flagged |
| Resolver.TallyCountsEveryEntry | archive/verify_publications.py:982-1109 | the counts add up to the number of decided entries |
| Resolver.RunCountsEveryEntry | archive/verify_publications.py:982-1109 | after phase 1 the counts add up to the number of entries |
| ReviewWriter.Flagged | archive/verify_publications.py:847 | only entries flagged for review are listed |
| ReviewWriter.FlaggedAreTheReviewEntries | archive/verify_publications.py:847-855 | an entry is listed iff it is flagged |
| ReviewWriter.OptionLines | archive/verify_publications.py:877-894 | six lines per candidate |
| ReviewWriter.AppendOptions | archive/verify_publications.py:877-894 | the candidate loop appends the option lines |
| ReviewWriter.AppendBlock | archive/verify_publications.py:855-906 | one paper's block is appended |
| ReviewWriter.AppendBlocks | archive/verify_publications.py:855-906 | the blocks of all flagged papers are appended in order |
| ReviewWriter.GenerateManualReview | archive/verify_publications.py:830-908 | the written file is `ReviewText` |
| ReviewReader.PaperHeader | archive/verify_publications.py:925-927 | a header line starts with `### Paper ` |
| ReviewReader.OptionNumber | archive/verify_publications.py:938-943 | the number of the leftmost `Option n`; none iff there is none |
| ReviewReader.DoiField | archive/verify_publications.py:949-951 | the backquoted text after the leftmost `DOI:`; non-empty and free of backquotes |
| ReviewReader.DoiFieldLeftmost | archive/verify_publications.py:949 | the field is read at the first `DOI:` position |
| ReviewReader.ManualFrom | archive/verify_publications.py:951-956 | a manual DOI is recorded iff it is a real DOI after stripping |
| ReviewReader.DoiLineAfter | archive/verify_publications.py:947-958 | the first later line with a DOI field, within the look-ahead window |
| ReviewReader.LookAhead | archive/verify_publications.py:945-958 | the manual DOI comes from that first DOI line; none without one |
| ReviewReader.FindManualDoi | archive/verify_publications.py:947-958 | the look-ahead loop returns `LookAhead` |
| ReviewReader.ReadTick | archive/verify_publications.py:933-963 | a ticked line gives the option, the manual DOI or "none of these" |
| ReviewReader.ParseManualReview | archive/verify_publications.py:911-967 | the reading loop returns `ReadSelections` of the file |
| ReviewReader.RunSelects | archive/verify_publications.py:921-965 | a paper's selection is the last tick under its latest header |
| ReviewReader.LaterSelectionWins | archive/verify_publications.py:931-963 | a later tick for the same paper overrides an earlier one |
| ReviewReader.NoHeaderNoSelections | archive/verify_publications.py:931 | ticks before any header are ignored |
| ReviewRoundTrip.UntouchedSelectsNothing | archive/verify_publications.py:830-967 | reading back an unedited review file selects nothing |
| ReviewRoundTrip.TickOption | archive/verify_publications.py:877-943 | ticking option k of a paper reads back as option k for that paper only |
| ReviewRoundTrip.EnterDoi | archive/verify_publications.py:900-958 | ticking the manual box and filling in a DOI reads back as that DOI, when it is valid |
| ReviewRoundTrip.TickNone | archive/verify_publications.py:903-963 | ticking "none of these" reads back as that choice |
| Phase2.Lookup | archive/verify_publications.py:1206-1207 | the selection for an entry number iff one was read |
| Phase2.ApplySelections | archive/verify_publications.py:1203-1243 | each entry becomes `Apply` of its selection |
| Phase2.ApplyKeepsEntry | archive/verify_publications.py:1203-1243 | a selection never changes an entry's parsed fields |
| Phase2.ChosenOptionAdopted | archive/verify_publications.py:1209-1217 | a chosen candidate is adopted with manual confidence; an out-of-range option changes nothing |
| Phase2.ManualDoiLookedUp | archive/verify_publications.py:1219-1231 | a manual DOI is looked up after the same cleaning as the resolver's; manual confidence with the work found iff it is found, otherwise confidence "not found" with the data and review flag kept |
| Phase2.NoneKeepsOriginal | archive/verify_publications.py:1233-1238 | "none of these" drops the work, sets confidence "original" and clears the review flag |
| Phase2.UnselectedEntry | archive/verify_publications.py:1240-1243 | a flagged entry without work or selection gets confidence "original" and stays flagged; any other entry is unchanged |
| Phase2.PhaseTwoEndState | archive/verify_publications.py:1203-1243 | after phase 2 an entry has a work iff its confidence is high or manual; it stays "needs review" iff its option was out of range |
| Report.SummarizeReport | archive/verify_publications.py:620-645 | the summary holds the total and the count of each bucket |
| Report.BucketsPartition | archive/verify_publications.py:629-640 | the four bucket counts add up to the total |
| Report.CountSingle | archive/verify_publications.py:632-640 | an entry counts in its own bucket and no other |
| Report.FinalBuckets | archive/verify_publications.py:632-640 | for every end state of both phases, high means "no issues", manual means "needs review", no work means "not found"; minor discrepancies never occur |
| Csl.FormatAuthorsForCsl | archive/verify_publications.py:547-560 | one CSL name per author, in order |
| Csl.CslAuthorRejoins | archive/verify_publications.py:552-557 | a name of two or more words splits into given names and the last word as family |
| Csl.CslAuthorKeepsShortName | archive/verify_publications.py:558-559 | a one-word name becomes the family name |
| Csl.IfTruthy | archive/verify_publications.py:590-603 | a field is set iff it is present and non-empty |
| Csl.CreateCslJson | archive/verify_publications.py:563-611 | one item per publication, in order |
| Csl.ItemWithoutWork | archive/verify_publications.py:567-587 | without a matched work the item comes from the parsed fields |
| Csl.ItemCarriesWorkFields | archive/verify_publications.py:589-604 | the item carries the work's DOI, URL, volume, issue, pages and counts when present |
| Csl.ManuscriptIffPreprint | archive/verify_publications.py:576-578 | the type is `manuscript` iff the work is a preprint, otherwise `article-journal` |
| PapersPage.NoteAt | generate_papers_md.py:51 | a number is read only where `Original entry:` occurs |
| PapersPage.ExtractLeftmost | generate_papers_md.py:48-54 | the number comes from the leftmost note that holds one |
| PapersPage.EntryNoteReadsBack | archive/verify_publications.py:607 | the note the verifier writes reads back as its entry number |
| PapersPage.CslItemNumberReadsBack | generate_papers_md.py:48-54 | every CSL item the verifier builds yields its entry number |
| PapersPage.GetYear | generate_papers_md.py:57-63 | the first date part when there is one, else none |
| PapersPage.CslItemYear | archive/verify_publications.py:585 | the page reads back the year the verifier stored |
| PapersPage.AuthorNameParts | generate_papers_md.py:66-81 | given and family joined, either one alone, or `Unknown` |
| PapersPage.Labels | generate_papers_md.py:96-105 | one label per author, in order |
| PapersPage.FormatAuthors | generate_papers_md.py:84-111 | the loop returns `AuthorsText` |
| PapersPage.WholeSurnameOnly | generate_papers_md.py:101-103 | a highlight of a different length than the surname never bolds |
| PapersPage.HighlightIgnoresCase | generate_papers_md.py:101-103 | an author is bolded iff the highlight equals the surname ignoring case |
| PapersPage.TruncateKeepsLimit | generate_papers_md.py:107-109 | a positive limit keeps that many names and adds `et al.`; no limit or a short list keeps all |
| PapersPage.TruncateNegativeLimit | generate_papers_md.py:108-109 | a negative limit drops names from the end, as Python slicing does |
| PapersPage.CitationEmptyIff | generate_papers_md.py:114-137 | the citation details are empty iff there is no journal, volume or pages |
| PapersPage.IssueNeedsVolume | generate_papers_md.py:126-135 | an issue is shown only with a volume |
| PapersPage.VolumePiece | generate_papers_md.py:127-133 | the volume piece is `volume(issue)` or `volume` |
| PapersPage.StripTags | generate_papers_md.py:157 | tag stripping never lengthens the text |
| PapersPage.StripTagsPlain | generate_papers_md.py:157 | text without `<` is unchanged |
| PapersPage.StripTagsAroundText | generate_papers_md.py:157 | a leading tag is removed |
| PapersPage.EntryLineCount | generate_papers_md.py:140-186 | the entry's lines are the header, the title, the DOI line when a DOI is set, and the extras line when there are extras; an item without a title shows `Unknown title` |
| PapersPage.HeaderShowsNumberAndYear | generate_papers_md.py:150-152 | the header shows `[n]` and the year, or `Unknown` |
| PapersPage.CitationsShown | generate_papers_md.py:173-176 | any recorded citation count, 0 included, is shown first among the extras when enabled |
| PapersPage.OpenAccessShown | generate_papers_md.py:178-181 | an open-access link is shown when enabled and present |
| PapersPage.MaxEntry | generate_papers_md.py:199-204 | the largest entry number read: no number read exceeds it, and it is one of them or 0 when none is positive |
| PapersPage.PageYear | generate_papers_md.py:213-215 | an entry is filed under a year iff it has one |
| PapersPage.ReadEntryNumbers | generate_papers_md.py:198-204 | every entry gets its note's number, and the maximum is returned |
| PapersPage.FileUnderYear | generate_papers_md.py:213-218 | filing one entry keeps the year dictionary equal to `InYear` of the entries seen |
| PapersPage.NumberEntry | generate_papers_md.py:208-211 | an unnumbered entry gets the next fresh number past the maximum |
| PapersPage.GroupPublications | generate_papers_md.py:189-220 | all entries are numbered, and the year dictionary holds each year's entries in order |
| PapersPage.FreshNumbersUnique | generate_papers_md.py:206-211 | a fresh number differs from every other entry's number |
| PapersPage.AppendEntries | generate_papers_md.py:252-255 | a section's entries are appended in order |
| PapersPage.AppendSection | generate_papers_md.py:244-255 | one year section is appended |
| PapersPage.AppendSections | generate_papers_md.py:244-255 | the sections are appended newest year first |
| PapersPage.GenerateMarkdown | generate_papers_md.py:223-257 | the page is the join of `PageLines` |
| PapersPage.PageSectionsOrdered | generate_papers_md.py:244-250 | years decrease, and entries within a year have decreasing numbers |
| PapersPage.PageSectionMembers | generate_papers_md.py:213-218 | a section holds exactly the entries of its year |
| PapersPage.DatedEntryPrinted | generate_papers_md.py:213-255 | every entry with a year is printed, under its year's heading |
| Grouping.SortDescending | generate_papers_md.py:250 | a permutation of the input in descending key order |
| Grouping.SortStable | generate_papers_md.py:250 | the sort is stable: elements with equal keys keep their input order |
| Grouping.YearKeysAreTheYears | generate_papers_md.py:213-218 | the keys are the distinct years of the entries |
| Grouping.InYearMembers | generate_papers_md.py:213-218 | a year's list holds exactly the entries of that year |
| Grouping.YearSectionsNewestFirst | generate_papers_md.py:244 | sections come in decreasing year order |
| Grouping.YearSectionContents | generate_papers_md.py:244-250 | a section holds its year's entries in decreasing key order |
| Grouping.YearSectionsCoverYears | generate_papers_md.py:213-218 | every entry with a year has a section |
| UpdatedList.ListYear | archive/verify_publications.py:739 | the work's year when set, else the parsed year |
| UpdatedList.FiledYear | archive/verify_publications.py:743-748 | an entry goes under a year iff it is not an unpublished preprint and has a year |
| UpdatedList.GroupForUpdate | archive/verify_publications.py:734-748 | the loop collects the preprints and the year dictionary |
| UpdatedList.PreprintSection | archive/verify_publications.py:751-755 | at most one section, without a year |
| UpdatedList.PreprintSectionContents | archive/verify_publications.py:751-755 | the preprint section holds the unpublished preprints, in order |
| UpdatedList.UpdatedSectionsSorted | archive/verify_publications.py:751-762 | within each section, entries come by decreasing number |
| UpdatedList.UpdatedSectionsNewestFirst | archive/verify_publications.py:751-762 | year sections follow the preprint section, newest year first |
| UpdatedList.UpdatedSectionsContents | archive/verify_publications.py:734-762 | a section holds exactly its year's entries, or the preprints |
| UpdatedList.EveryEntryPlacedOnce | archive/verify_publications.py:734-762 | an entry with a year or a preprint appears in exactly one section |
| UpdatedList.MarkdownAuthors | archive/verify_publications.py:711-716 | one rendered name per author, in order |
| UpdatedList.FormatAuthorsForMarkdown | archive/verify_publications.py:709-717 | the loop returns the comma-joined rendered names |
| UpdatedList.HighlightFoundInsideName | archive/verify_publications.py:713-714 | a name that contains the highlight, ignoring case, is bolded |
| UpdatedList.EmptyHighlightBoldsAll | archive/verify_publications.py:713 | an empty highlight bolds every author |
| Enrich.QueryDoiStripsLink | enrich_from_openalex.py:51 | a bare DOI, or one behind an `http`/`https` `doi.org` prefix, is queried as the bare DOI |
| Enrich.StartCache | enrich_from_openalex.py:79 | `refresh` starts from an empty cache, otherwise from the loaded one |
| Enrich.FetchedAgreesWithCache | enrich_from_openalex.py:121-134 | updating from a fresh lookup equals updating from its cache entry |
| Enrich.EnrichItem | enrich_from_openalex.py:93-139 | one loop iteration is one `Step`, and other items are unchanged |
| Enrich.EnrichPublications | enrich_from_openalex.py:69-139 | the enriched items, cache and counters are those of `Run` |
| Enrich.CountersAddUp | enrich_from_openalex.py:84-139 | every item counts once: no DOI, cached, enriched or not found; `no_doi` is the number of items without a DOI, and enriched plus not found is the number of lookups |
| Enrich.StepCache | enrich_from_openalex.py:120-139 | one visit adds a new DOI with its lookup result and keeps every other entry |
| Enrich.RunCache | enrich_from_openalex.py:120-139 | the final cache is the loaded one plus each other DOI's lookup; each new DOI is looked up once |
| Enrich.StepSettles | enrich_from_openalex.py:105-134 | one visit settles its item and keeps the earlier ones |
| Enrich.RunSettled | enrich_from_openalex.py:105-134 | each item ends as the final cache says for its DOI |
| Enrich.ApplyCachedKeepsUrl | enrich_from_openalex.py:110-111 | a cache entry sets the count and never replaces an existing URL |
| Enrich.ItemsKeepTheirUrl | enrich_from_openalex.py:110-134 | only count and URL change, an existing URL is never overwritten, and items without a DOI are untouched |
| Enrich.RefreshLooksUpEveryDoi | enrich_from_openalex.py:79 | with `refresh`, every DOI is looked up, once each |
| Enrich.LoadedDoisNotLookedUp | enrich_from_openalex.py:105-114 | without `refresh`, a DOI in the loaded cache is never looked up |

## Left out

- The HTTP clients are not modelled: `query_openalex_by_doi`, `query_openalex_by_title`, `query_openalex_candidates`, `query_openalex_by_author_title`, `search_pubmed`, `get_doi_from_pubmed`, `search_published_version` and `query_openalex`. They are pure oracle parameters, without retries, backoff, `time.sleep` or network errors.
- `extract_openalex_metadata` is not modelled. A matched work is an abstract record holding the fields the pipeline reads.
- File and JSON input/output, `load_cache` and `save_cache`, argument parsing, `main`'s control of which phases run, the checks that files exist, `sys.exit`, logging and printing are not modelled.
- The text `{similarity:.0%}` is not modelled. The review file receives the percentage as an opaque `percent` parameter, because it is floating-point formatting.
- Character classes are ASCII. Python's Unicode `\w`, `\s`, `lower()` and `int()` (signs, underscores, Unicode digits) are not modelled.
- An empty dictionary returned by a service, and `openalex = {}`, are both modelled as "no work".
- A `cited_by_count` that is present but null is read as 0. Cache entries loaded as empty dictionaries are not modelled.
- `StripTags` models the tag-stripping substitution of the page generator. Only the lemmas in the table are proved about it.
- The per-entry detail text of the discrepancy report (archive/verify_publications.py:646-693) is not modelled; only its counts are.
- The entry text of `format_publication_entry` (archive/verify_publications.py:767-827) is not modelled. This includes its `re.sub` bolding of the author and the front-matter text of the updated list. The grouping and ordering of that list are modelled.
- EntryParser.ParseEntry: uses the corrected journal pattern `EntryParser.Journal`, not the pattern as written (`EntryParser.JournalAsWritten`). On `**Title** *Journal*` the record holds `Journal` where the source stores `""`. The records of later stages, the review file's journal line, the CSL container title and the updated list carry the corrected journal too.
- EntryParser.ParseEntry: requires that the entry text holds no newline. Its only caller joins an entry's lines with spaces (`PublicationList.EntryTextHasNoBreak`), so regex `.` and `$` behave the same.
- Csl.CreateCslJson: requires every publication to be `Identifiable`. The source raises `IndexError` on a title or author name made only of whitespace, and the model does not reproduce the exception.
- PapersPage.TitleLine: an item whose `title` is null is shown as `Unknown title`. The source raises `TypeError` there (generate_papers_md.py:155-157), so no page is written; `create_csl_json` writes a null title for an entry with no parsed title and no matched work. The model does not distinguish a null title from a missing one.
- ReviewRoundTrip.UntouchedSelectsNothing: requires that no title, author or candidate text written into the file holds a newline.
- ReviewRoundTrip.TickOption, ReviewRoundTrip.EnterDoi, ReviewRoundTrip.TickNone: require the same, that no text written into the file holds a newline. A newline there would split a written line, and the source's line-by-line reader would misread the file too.

## Findings

| source | as written | input that shows it | evidently intended | confidence | as-written member | corrected member |
|---|---|---|---|---|---|---|
| archive/verify_publications.py:205 | the journal pattern `\*([^*]+)\*(?!\*)` may open at the second star of a bold marker | `A (2020) **Some Title Here** *Journal* 1(2):3` gives the journal `""`, the single space between `**` and `*`, which is falsy downstream | the opening star must not follow another star (`(?<!\*)\*([^*]+)\*(?!\*)`), giving `Journal` | not executed | EntryParser.BoldThenItalicLosesJournal | EntryParser.BoldThenItalicKeepsJournal |
