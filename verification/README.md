# Nspider in Dafny

Nspider links GEO datasets (GDS uids, GSE accessions) to the publications
that describe them and downloads those publications' PDFs. It keeps three
append-only tables (`gds`, `publication`, `source`), each with a key-set
index. This project models the logic at the core of the system as pure
Dafny functions over immutable sequences, sets and strings, and proves
properties about it:

- **Identifiers** (module `Identifiers`, with string helpers in `Text`):
  - the DOI and PMID formats of `utils.py` and `check_identifier`;
  - the accession and year-month patterns;
  - the `/` ↔ `_slash` DOI escape;
  - the canonical `<doi>.pdf` file name;
  - the domain and PMID extraction from links;
  - the author-list split.
- **Tables** (module `Tables`): the three row schemas, their column
  positions, and the rows the publication scraper builds.
- **Resolver heuristics**:
  - module `Matching`: the word-overlap similarity score and the greedy
    author-set test;
  - module `Resolver`: the stable ranking of author-passing candidates by
    day interval, and the final selection, where a full-text accession hit
    wins and otherwise the first maximal similarity wins.
- **Registry** (module `Registry`):
  - dataset and publication registration with first-write-wins dedup
    against the key index;
  - `load_publication`: identifier classification and the path it opens.
- **Download orchestration**:
  - module `Policy`: the primary- and secondary-domain retry policy over an
    attempt oracle;
  - module `Download`: the bounded poll loop over a directory-listing
    oracle, and the rename.
- **Crawler** (module `Crawler`):
  - the snapshot-diff new-file detector;
  - domain extraction and the dispatch table;
  - the `.pdf`-href and click-through link strategies;
  - absolute-URL composition;
  - the snapshot side effect of `save_publication`.
- **Binding** (module `Binding`): `_get_publication_detail` and
  `_register_publication_by_gds_uid`, with the scraper and the resolver as
  oracles. `Binding.ResolvedBy` ties the resolver oracle to the `Resolver`
  model.
- **The older variant** of experiment/nspider.py (module `Variant`):
  - a stricter `_register_publication` that refuses replayed keys instead
    of filtering them, records only primary outcomes, and left-merges them
    on `doi`;
  - its download rename;
  - its resolver selector;
  - its `load_publication` classification.

  Its similarity score (experiment/nspider.py:57-62) and author test
  (experiment/nspider.py:272-286) are textually those of scraping.py.
  They are modelled once, by the `Matching` members.

The browser, the PubMed pages, PDF text, the download directory and
download success are inputs:
- `Policy.Attempt` says whether downloading a link succeeds.
- `Download.Listing` is the directory listing at each `chk_new_file` call.
- `Crawler.Page` is the page the browser shows.
- `Resolver.Candidate` carries a candidate's day interval, title href,
  abstract and full text.
- `Binding.Env` gives the scraper's and the resolver's answers.

Python exceptions become `Failure` values named after the exception.

Where the code and its documentation disagree, the model follows the code.
For example, a contributor `J Smith` does not match an author `John Smith`,
because neither string contains the other (`Matching.AuthorMatchExamples`).

The model follows the evident intent, rather than the literal text, at
these places:
- Nspider.py:74 and Nspider.py:86-87 compare the set of already-registered
  keys against a whole column. pandas compares each cell with the set
  object, so nothing is filtered. `Registry.RegisterDataset` and
  `Registry.RegisterPublication` filter by key. The literal behaviour is
  kept as `Registry.RegisterDatasetAsWritten` and
  `Registry.RegisterPublicationAsWritten` (see Findings).
- Nspider.py:189 reads the undefined names `gds` and `gds_uid`.
  `Binding.Detail` reads the stored gds table and the uid passed in.
- Nspider.py:227 and Nspider.py:236 read the undefined names
  `accession_number` and `dataset_title`, and Nspider.py:235 reads an
  abstract from the stored table. `Resolver.Resolve` takes the dataset
  page's accession and title and each candidate's abstract as inputs.
- Nspider.py:236 calls `similarity_fn`, which Nspider.py neither defines
  nor imports; the name exists only as a parameter default at
  scraping.py:143. `Resolver.Similarities` uses that default,
  `word_level_comprehension_score` (`Matching.Score`).
- experiment/nspider.py:377 calls `parse`, which the module never imports,
  so the variant's resolver raises `NameError` on every call. The model
  reads it as the date parse it evidently is; day intervals are inputs.
- experiment/nspider.py:388 calls `_is_their_publication` without `self.`.
  `Variant.SelectWithAnchors` uses the method (`Matching.IsTheirPublication`).
- experiment/nspider.py:399 calls `replace(day=1)` on the first character
  of the matched text, a `str`, which raises `TypeError` for every
  author-passing candidate. The model takes the candidate's day interval
  as given.
- experiment/nspider.py:423 calls `self.get_info`, which the class
  (experiment/nspider.py:65) does not define, whenever no full text
  contains the accession. `Variant.SelectWithAnchors` scores the abstracts
  that the main class reads, as `Resolver.Select` does.
- experiment/PaperCrawler.py:186 has `excute` call `save_publication`,
  whose test at experiment/PaperCrawler.py:150 never lets it print (see
  Findings). `Crawler.Execute` composes the intended `Crawler.SavePublication`;
  the written save is `Crawler.SavePublicationAsWritten`.
- experiment/nspider.py:180 tests `self.mode is 'csv'`.
  `Variant.RegisterStrict` models the csv branch.

## Model

| member | source | states |
|---|---|---|
| Text.ContainsIff | scraping.py:84 | Python's substring test `a in b` holds exactly when `a` occurs at some position of `b` |
| Text.JoinSplitOn | scraping.py:167 | splitting on a non-empty separator and joining the pieces back with it restores the string |
| Text.SplitOnCharCount | scraping.py:136 | splitting on one character gives one more piece than the character's number of occurrences |
| Text.SplitOnLastIsSuffix | scraping.py:194 | the last piece of a split is a suffix of the string, the part `split('/')[-1]` reads |
| Text.WordsCoverNonSpace | scraping.py:21-22 | the words of `str.split()`, concatenated, are exactly the string's non-whitespace characters |
| Text.NoWordsIffBlank | scraping.py:21 | `split()` yields no word exactly when the string is all whitespace |
| Identifiers.DoiFormatIff | utils.py:17 | the DOI pattern is found in a string exactly when some `/` there has a digit or `.` before it and a word character, `-` or `.` after it |
| Identifiers.NoSlashNoDoi | utils.py:17 | a string without `/` never matches the DOI pattern, so a stored (escaped) DOI does not match as given |
| Identifiers.PmidFormatIff | utils.py:18 | the PMID pattern accepts a string exactly when it is non-empty and all digits |
| Identifiers.FirstAccession | utils.py:13 | an accession found is `GSE` followed by the whole digit run at a position where `GSE<digit>` starts; none is found exactly when no position starts so |
| Identifiers.JanuaryRejectedAsWritten | utils.py:12 | the year-month pattern as written rejects `2019 Jan` |
| Identifiers.EveryMonthRecognised | utils.py:12 | with the twelve calendar months, four digits, a space and any month is accepted; with the written list, January is not |
| Identifiers.Escape | scraping.py:118 | the stored DOI contains no `/`, and it contains `_` whenever the DOI had a `/` |
| Identifiers.UnescapeEscape | Nspider.py:313 | un-escaping an escaped DOI gives the DOI back, provided the DOI does not itself contain `_slash` |
| Identifiers.Classify | Nspider.py:313-318 | DOI exactly when the un-escaped identifier matches the DOI format; else PMID exactly when it matches the PMID format; else `AttributeError` |
| Identifiers.ClassifyEscapedDoi | Nspider.py:313-314 | a stored DOI (escaped) is classified as a DOI |
| Identifiers.ClassifyDigits | Nspider.py:315-316 | a non-empty digit string is classified as a PMID |
| Identifiers.IsPdfIff | Nspider.py:143 | `Path.suffix == '.pdf'` exactly when the path's last component is longer than four characters and ends in `.pdf` |
| Identifiers.SuffixOfEntry | Nspider.py:143 | a `glob` entry `dir/name` has the suffix of `name`, so `download/.pdf` has none |
| Identifiers.CanonicalNameIsPdf | Nspider.py:149 | the canonical file name `<doi>.pdf` has suffix `.pdf` exactly when the DOI has a non-empty part after its last `/`, and it starts with the DOI |
| Identifiers.SourceDomain | scraping.py:136 | the third `/`-separated segment exists exactly when the link has at least two `/`; it contains no `/` and starts right after the link's second `/`, running to the third `/` or the end |
| Identifiers.LastSegment | scraping.py:194 | `split('/')[-1]` is a `/`-free suffix with a `/` just before it, and the whole string when it has no `/` |
| Identifiers.LastSegmentUnique | scraping.py:194 | a string is the last segment exactly when it is a `/`-free suffix that is the whole string or follows a `/` |
| Identifiers.AuthorList | scraping.py:167 | the author list, joined back with `, ` and followed by the dropped last character, is the description text; the list is never empty |
| Tables.GdsCells | utils.py:31 | a gds row has two cells, `gds_uid` then `doi` |
| Tables.PublicationCells | utils.py:32 | a publication row has one cell per column of the publication schema |
| Tables.PublicationColumnPositions | utils.py:32 | looking up `doi` in the publication schema finds the first column, and `successful_donwload` the sixth |
| Tables.SourceCells | utils.py:33 | a source row has three cells, with `doi` first and `link_to_paper` in its column |
| Tables.PublicationCellsRoundTrip | utils.py:32 | reading a publication row back from its cells gives the row |
| Tables.ScrapedSources | scraping.py:134-138 | one source row per link, in order, each with the scraped DOI and the link's domain; `IndexError` exactly when some link has fewer than two `/` |
| Tables.ScrapedPublication | scraping.py:132 | a scraped publication row carries the escaped DOI and has not been downloaded |
| Matching.Score | scraping.py:19-24 | fails (division by zero) exactly when the source has no words; otherwise lies in [0, 1], is 1 exactly when every source word is in the target, and is 0 exactly when they share none |
| Matching.IsSameSymmetric | scraping.py:84 | the pairwise author test is symmetric |
| Matching.SortByLengthDesc | scraping.py:86-87 | the sort by length, longest first, is a permutation of its input and is ordered |
| Matching.SortByLengthDescStable | scraping.py:86-87 | the sort is stable: strings of each length keep their input order |
| Matching.FirstCompatible | scraping.py:90-94 | a contributor takes the first remaining author compatible with it, and finds none exactly when no author is compatible |
| Matching.RemoveAt | scraping.py:93 | popping an author removes exactly that one author from the multiset |
| Matching.GreedyCount | scraping.py:88-94 | the greedy count never exceeds the number of contributors or of authors |
| Matching.IsTheirPublication | scraping.py:82-96 | a positive answer implies no more contributors than authors; no contributors is always a positive answer |
| Matching.GreedyCountIffAllMatched | scraping.py:96 | the greedy count equals the number of contributors exactly when every contributor consumes a distinct remaining author |
| Matching.TheirPublicationHasMatching | scraping.py:86-96 | a positive answer comes with a pairing of the sorted contributors with authors, each pair compatible |
| Matching.AuthorMatchExamples | scraping.py:84-96 | `J Smith` is not matched by `John Smith`, `Smith` is, and two contributors cannot share one author |
| Matching.GreedyTakesFirst | scraping.py:89-94 | when the longer contributor takes the first author, the shorter one cannot fall back to it |
| Matching.GreedyMissesSomeMatchings | scraping.py:89-94 | the greedy scan can answer no although a perfect pairing exists |
| Resolver.Passing | scraping.py:171-173 | the indices kept by the author filter are increasing and are exactly those that pass |
| Resolver.RankAll | scraping.py:189 | ranking gives the same indices, ordered by day interval with ties kept in index order |
| Resolver.RankedUnique | scraping.py:189 | at most one ordering of a given index set is ranked, so the stable sort's result is determined |
| Resolver.RankedDistinctAndOrdered | scraping.py:189 | ranked indices are distinct and non-decreasing in day interval |
| Resolver.RankCandidates | scraping.py:169-189 | the ranked list contains exactly the author-passing candidates, in stable day-interval order |
| Resolver.RankedCandidates | scraping.py:192-194 | the candidates in ranked order, each of them passing the author test |
| Resolver.FirstContaining | Nspider.py:223-229 | finds the first ranked candidate whose text contains the accession, and finds none exactly when no candidate's does |
| Resolver.FirstArgMax | Nspider.py:238 | `max` over indices returns a position of the maximum, and the first such position |
| Resolver.Similarities | Nspider.py:231-236 | one score per ranked candidate, each the similarity of the dataset title with that candidate's abstract |
| Resolver.Select | Nspider.py:223-242 | a full-text accession hit wins with score None; otherwise the first maximal similarity wins with its score; it fails exactly when there is no hit and either no candidate or a title without words |
| Resolver.FullTextWins | Nspider.py:223-229 | the first candidate whose text contains the accession is the answer, with no score |
| Resolver.Resolve | Nspider.py:219-242 | an empty contributor list fails; an answer is the PMID of some author-passing candidate; no passing candidate means failure |
| Crawler.InitialWatcher | experiment/PaperCrawler.py:90 | the first snapshot is the directory listing at construction |
| Crawler.FirstNew | experiment/PaperCrawler.py:123-125 | the reported entry is in the listing and not in the snapshot; none is reported exactly when every entry is in the snapshot |
| Crawler.ChkNewFile | experiment/PaperCrawler.py:121-130 | reports a new entry if there is one, otherwise `Path('')` with empty suffix; afterwards the snapshot is the listing |
| Crawler.ChkNewFileIdle | experiment/PaperCrawler.py:128 | an unchanged directory reports nothing on the next call |
| Crawler.ChkNewFileForgetsHistory | experiment/PaperCrawler.py:128 | after a call, the next call's result does not depend on the snapshot before it |
| Crawler.DomainOf | experiment/PaperCrawler.py:88 | fails (`IndexError`) exactly when no `https://` is followed by a `[.\w]` character; otherwise returns the first maximal `[.\w]` run after the first such `https://` |
| Crawler.DomainOfComposed | experiment/PaperCrawler.py:174 | the domain of `https://<domain><rest>` is the domain when the rest starts with a non-domain character |
| Crawler.StrategyFor | experiment/PaperCrawler.py:176 | a domain has a strategy exactly when it is listed in the dispatch table; otherwise `KeyError` |
| Crawler.DispatchTableWellFormed | experiment/PaperCrawler.py:33-86 | the table has ten distinct domains, the PubMed domain uses the `.pdf` href, and every click-through entry has at least one XPath |
| Crawler.PdfHrefLink | experiment/PaperCrawler.py:143-144 | the first href matching `.*.pdf`; fails exactly when none does |
| Crawler.ClickThroughLink | experiment/PaperCrawler.py:133-140 | with N ≥ 1 XPaths, clicks the first N−1 in order and returns the href of the last; with one XPath, no clicks; none raises |
| Crawler.SearchFrom | experiment/PaperCrawler.py:178 | `re.search(domain, link)` from a position succeeds exactly when the pattern matches at some later position |
| Crawler.ComposeUrl | experiment/PaperCrawler.py:178-183 | the link itself when the domain pattern is found in it, otherwise `https://` + domain + link; the result always contains the domain pattern |
| Crawler.LiteralDomainKeepsLink | experiment/PaperCrawler.py:178-181 | a link that contains the domain literally is kept as it is |
| Crawler.UnescapedDotsAcceptLookalike | experiment/PaperCrawler.py:178 | an unescaped `.` in the domain makes a link without the literal domain count as full |
| Crawler.SavePublicationAsWritten | experiment/PaperCrawler.py:147-153 | as written, the snapshot advances to the listing and the print shortcut is never sent |
| Crawler.SavePublication | experiment/PaperCrawler.py:147-153 | the snapshot advances to the listing; the print shortcut is sent exactly when no new file has appeared |
| Crawler.SaveNeverPrintsAsWritten | experiment/PaperCrawler.py:150 | when no file has appeared, the intended save prints and the written one does not, with the same snapshot |
| Crawler.PdfLink | experiment/PaperCrawler.py:176 | the link getter dispatches on the strategy: `.pdf` href with no clicks, or click-through |
| Crawler.Execute | experiment/PaperCrawler.py:169-186 | `IndexError` for a URL without a domain and `KeyError` for an unlisted domain; on success, the URL opened contains the domain pattern, and the save is `SavePublication` |
| Crawler.PdfHrefPagesClickNothing | experiment/PaperCrawler.py:172-186 | on a `.pdf`-href domain with a `.pdf` link, the execution succeeds with no clicks and opens the composed URL |
| Crawler.PrimaryPagesUsePdfHref | experiment/PaperCrawler.py:44-45 | a PubMed page with a `.pdf` link is handled without clicks |
| Download.PollLoop | Nspider.py:140-146 | at most `limit` polls; stops at the first poll reporting an entry the test admits (a `.pdf` suffix in the download); none found means exactly `limit` polls and no poll reported one |
| Download.DownloadPaper | Nspider.py:128-154 | fails exactly when the crawler does; the status is whether a PDF was found, at the first reporting poll, within the limit; a found file is renamed to `<doi>.pdf` |
| Download.DownloadIgnoresStaleSnapshot | Nspider.py:132 | the refresh makes the outcome independent of the crawler's earlier snapshot |
| Download.EarlyArrivalIsMissed | Nspider.py:132-146 | a PDF already present when `save_publication` snapshots, with nothing arriving later, is never reported, and all polls are spent |
| Download.RenamedFileIsPdf | Nspider.py:148-149 | the rename target has suffix `.pdf`, the name `load_publication` opens, exactly when the DOI's part after its last `/` is non-empty (for an escaped DOI: when it is non-empty) |
| Policy.Keep | Nspider.py:91 | a boolean-mask row selection keeps exactly the rows satisfying the predicate, in order |
| Policy.FreeDois | Nspider.py:91 | the DOIs of the publications flagged `is_free_pmc` |
| Policy.SetStatus | Nspider.py:100 | the rows with the DOI take the new status; every other field and row is unchanged |
| Policy.LastFor | Nspider.py:96-100 | the outcome of the last link of a DOI among the primary links; none exactly when it has none |
| Policy.RunPrimary | Nspider.py:96-100 | every primary link is tried once, in order, and each publication ends with the outcome of its DOI's last primary link, or its old status |
| Policy.DistinctDois | Nspider.py:104 | the DOIs of the secondary links, each once |
| Policy.GroupEmptyIff | Nspider.py:104 | a DOI has a secondary group exactly when it is among the distinct DOIs |
| Policy.FirstStatus | Nspider.py:106 | the status of the first row with the DOI; none exactly when there is no such row |
| Policy.TryUntilSuccess | Nspider.py:109-118 | links are tried in order and stop at the first success; the outcome is whether any link succeeds; with no success every link is tried |
| Policy.RunSecondary | Nspider.py:102-120 | only download statuses change, and the table keeps its length |
| Policy.SecondaryEffect | Nspider.py:102-120 | a DOI already marked successful is skipped; any other DOI ends with whether some link of its group succeeded |
| Policy.Downloads | Nspider.py:91-120 | never raises, keeps the table's length, and tries the primary links first, in order |
| Policy.DownloadsStatus | Nspider.py:91-120 | every publication ends with its expected status: primary outcome, then a secondary result unless already successful |
| Policy.OnlyFreeLinksTried | Nspider.py:91 | every attempted link is a source row of a free-PMC publication |
| Policy.NonFreeUnchanged | Nspider.py:91 | a publication that is not free PMC keeps its incoming status |
| Registry.GdsKeys | Nspider.py:69 | the set of uids of a gds batch |
| Registry.PublicationKeys | Nspider.py:81 | the set of DOIs of a publication batch |
| Registry.Open | Nspider.py:41-58 | an opened registry holds the loaded tables, and each index is the key set of its table |
| Registry.FilterGds | Nspider.py:74 | keeps exactly the gds rows whose uid is not registered, in order |
| Registry.FilterPublications | Nspider.py:86 | keeps exactly the publication rows whose DOI is not registered, in order |
| Registry.FilterSources | Nspider.py:87 | keeps exactly the source rows whose DOI is not registered, in order |
| Registry.RegisterDataset | Nspider.py:67-76 | rows are appended only, exactly the batch rows with an unregistered uid; the index becomes old index ∪ batch uids; other tables untouched |
| Registry.RegisterDatasetAsWritten | Nspider.py:74-76 | as written, the whole batch is appended, and the index still grows by the batch uids |
| Registry.RegisterDatasetConsistent | Nspider.py:75-76 | the gds index stays the set of stored uids |
| Registry.RegisterDatasetUnique | Nspider.py:67-76 | a registry without duplicate uids stays so after a batch without duplicate uids |
| Registry.RegisterDatasetIdempotent | Nspider.py:67-76 | registering the same batch twice is the same as registering it once |
| Registry.RegisterDatasetAsWrittenDuplicates | Nspider.py:74 | as written, re-registering a stored uid appends a second row for it |
| Registry.RegisterPublication | Nspider.py:79-125 | appends only; the new publications are the novel ones after downloads; new sources are exactly those of unregistered DOIs; the index becomes old ∪ batch DOIs |
| Registry.RegisterPublicationAsWritten | Nspider.py:81-125 | as written, the whole batch and all its sources are appended |
| Registry.RegisterPublicationConsistent | Nspider.py:89 | the publication index stays the set of stored DOIs |
| Registry.RegisterPublicationUnique | Nspider.py:79-125 | a registry without duplicate DOIs stays so after a batch without duplicate DOIs |
| Registry.RegisterPublicationAgain | Nspider.py:81-89 | a batch whose DOIs are all registered changes nothing and attempts no download |
| Registry.AttemptsOnlyNovelFree | Nspider.py:91 | every download attempt is a given link of a novel, free-PMC publication |
| Registry.RegisterPublicationAsWrittenDuplicates | Nspider.py:86-87 | as written, re-registering a stored publication appends a second row for its DOI |
| Registry.RowsWithDoi | Nspider.py:322 | the rows whose DOI is the identifier; none exactly when no row has it |
| Registry.LoadPublication | Nspider.py:311-333 | `AttributeError` for an unclassifiable identifier; otherwise the single matching row's file `<doi>.pdf` is opened exactly when its download succeeded |
| Registry.LoadStoredPublication | Nspider.py:322-327 | in a registry without duplicates, loading a stored DOI opens its file exactly when its download succeeded |
| Binding.GdsRowsOf | Nspider.py:189 | the stored gds rows of a uid |
| Binding.Detail | Nspider.py:184-215 | an indexed uid is answered from the stored tables, failing unless it has exactly one gds row with a DOI; a stored PMID likewise needs exactly one row; otherwise the scraped rows are returned and registered if non-empty |
| Binding.FirstDoi | Nspider.py:256-259 | the DOI of the first publication found; none exactly when none was found |
| Binding.LookUpAll | Nspider.py:252-270 | one lookup per uid, leaving the gds table untouched |
| Binding.Unbound | Nspider.py:263-264 | exactly the uids whose lookup found no publication |
| Binding.BoundRowsIff | Nspider.py:261-268 | a bound row is a uid paired with the first DOI of its lookup, for the uids that found a publication |
| Binding.ResolveAll | Nspider.py:279-300 | one row per unbound uid, in order, each resolved; the gds table is untouched until the end |
| Binding.ResolveAllNeedsResolver | Nspider.py:285 | binding gets past the resolver loop only if the resolver answers every unbound uid; an empty contributor list fails it |
| Binding.CollectRows | Nspider.py:252-300 | the collected rows are the bound rows followed by one row per unbound uid |
| Binding.BindByUids | Nspider.py:245-307 | the rows are registered once, at the end, with dataset dedup |
| Binding.BatchRowsFromUids | Nspider.py:256-305 | every registered row names a uid of the call, and a bound uid is paired with its first DOI |
| Variant.Classify | experiment/nspider.py:497-502 | DOI exactly when the identifier as given matches the DOI format; else PMID exactly when it matches the PMID format; else `AttributeError` |
| Variant.RejectsStoredDoi | experiment/nspider.py:497-502 | a stored (escaped) DOI is rejected by the variant, although the main class classifies it as a DOI |
| Variant.ClassifyAgreesWithoutUnderscore | experiment/nspider.py:497-502 | the two classifications agree on identifiers without `_` |
| Variant.DownloadPaper | experiment/nspider.py:242-264 | fails exactly when the main download fails, or finds a file in a relative download directory that `glob` repeats in front of each entry (then `FileNotFoundError`); otherwise a found file is renamed to the bare DOI |
| Variant.OneComponentIsPrefixed | experiment/nspider.py:264 | a relative directory of one real component, such as `download`, is repeated in the joined rename source |
| Variant.RelativeDirectoryExamples | experiment/PaperCrawler.py:197 | `download` is repeated by the join, while the default `./` and an absolute directory are not |
| Variant.RenameMissesLoadPath | experiment/nspider.py:264 | the variant's rename target differs from the `<doi>.pdf` name `load_publication` opens |
| Variant.RankedPmids | experiment/nspider.py:409 | `IndexError` exactly when a ranked position is past the anchors found; otherwise the PMID of each ranked position's anchor |
| Variant.TileSelectorAlwaysFails | experiment/nspider.py:408 | with the `.tile` selector, which finds no anchor, the selection always fails |
| Variant.TitleSelectorResolves | experiment/nspider.py:362-430 | with the `.title` anchors the variant's selection is the main resolver |
| Variant.SecondaryTries | experiment/nspider.py:213-229 | tries are made exactly for the DOIs not among the primary outcomes, each group in order until its first success |
| Variant.OutcomesFor | experiment/nspider.py:233 | the primary outcomes of a DOI; none exactly when the DOI has no primary outcome |
| Variant.MergeRow | experiment/nspider.py:233 | one row per primary outcome of the DOI, or a single row when the DOI has none |
| Variant.MergeRowRows | experiment/nspider.py:233 | every merged row is the publication row with only its status changed; the status is missing exactly when the DOI has no primary outcome, and is otherwise one of the DOI's outcomes |
| Variant.MergeLeftKeys | experiment/nspider.py:233 | the left merge keeps the set of DOIs |
| Variant.MergeLengthIff | experiment/nspider.py:233 | the merge keeps the number of rows exactly when no DOI has two primary outcomes |
| Variant.MergeUniqueIff | experiment/nspider.py:233 | for publications without duplicate DOIs, the merged table has none exactly when no DOI has two primary outcomes |
| Variant.ClashesIff | experiment/nspider.py:182-189 | the duplicate test holds exactly when some incoming uid or DOI is already indexed |
| Variant.RegisterStrict | experiment/nspider.py:176-239 | `AssertionError` exactly when an incoming key is indexed; otherwise all rows are appended, the indexes grow by the batch keys, and only primary outcomes reach the table |
| Variant.FailedPrimaryNotRetried | experiment/nspider.py:217 | a DOI with a primary outcome, even a failed one, gets no secondary try |
| Variant.SecondaryOutcomesDiscarded | experiment/nspider.py:231-233 | the registry does not depend on secondary outcomes |
| Variant.StrictAgreesWithDedup | experiment/nspider.py:191 | when no key clashes, the strict gds registration equals the dedup one, and filtering publications keeps them all |
| Variant.StrictRejectsReplay | experiment/nspider.py:189 | registering a non-empty batch a second time fails |
| Variant.StrictConsistent | experiment/nspider.py:191-192 | the indexes stay the sets of stored keys |
| Variant.StrictUniqueIff | experiment/nspider.py:189-236 | from a consistent duplicate-free registry and duplicate-free batches, a successful strict registration stays duplicate-free exactly when no DOI has two primary outcomes |
| Variant.MainRetriesExample | Nspider.py:104-120 | the main class retries a DOI whose primary link failed on its secondary link |
| Variant.VariantSkipsExample | experiment/nspider.py:217 | the variant skips the same secondary link and records the failure |

## Left out

- I/O is not modelled. The three tables are sequences of rows, and a registry is opened from given tables. This covers:
  - CSV loading, `commit` and `__del__` (Nspider.py:41-58, Nspider.py:360-364);
  - the Selenium driver and its construction;
  - the page loader;
  - the DOM and CSS/XPath extraction;
  - the `Ctrl+P` key action itself;
  - opening the PDF file (the model returns the path).
- Sleeping and polling intervals are not modelled; only the number of polls is.
- PyPDF2 text extraction in `_get_text_from_publication` is not modelled. Each candidate carries its full text as an input.
- The side effects of `_get_text_from_publication` are not modelled: it registers the publication it looks up and downloads it.
- Resolver.Resolve and Binding.ResolveAll: a candidate's full text is a plain input, so the failures of `_get_text_from_publication` (Nspider.py:156-181, called for every candidate at Nspider.py:225) are not modelled. Its `load_publication(pmid)` raises `ValueError` when the PMID has no stored row or several (the truth test of `squeeze()` at Nspider.py:322), and a PMID stored twice makes the lookup at Nspider.py:201 compare a Series with the source column and raise. The model's resolver cannot fail there.
- Date parsing is not modelled. A candidate's day interval is an input.
- The similarity score is an exact rational (`real`), not a float.
- Regex classes `\d`, `\w` and whitespace are the ASCII ones. For `str.split()` the ASCII whitespace includes `\x1c` to `\x1f`; the non-ASCII whitespace characters (such as `\x85` and `\xa0`) are not modelled.
- Variant.DownloadPaper: a relative download directory with `..` components is taken to be repeated by the join like any other, although the operating system may resolve the doubled path to an existing file.
- Policy.Attempt: a download attempt is a total boolean oracle. A crawler error that would abort the registration loop is not modelled, and neither are the rows registered before such an error.
- Library versions: the whole model assumes pandas 1.x and numpy older than 1.24. With pandas 2, `groupby(['doi'])` yields 1-tuple keys, so the lookup at Nspider.py:106 selects no row and `.values[0]` raises `IndexError` (`Policy.Downloads`, `Policy.SecondaryEffect`, `Policy.RunSecondary`, `Registry.RegisterPublication`), and the same keys change experiment/nspider.py:213-229 (`Variant.SecondaryTries`, `Variant.RegisterStrict`). With numpy 1.24 or later, `np.bool` at Nspider.py:273 raises `AttributeError` (`Binding.BindByUids`).
- Policy.Downloads, Variant.SecondaryTries and Variant.RegisterStrict: attempts of the secondary groups are listed in first-appearance order of their DOI, while `groupby` sorts the DOIs. The resulting tables do not depend on that order; only the order of the attempts does.
- Crawler.ChkNewFile: `set.pop()` picks an arbitrary new entry. The model picks the first new entry in listing order, and the contract promises only that the entry is new.
- Registry.LoadPublication: a row count other than one is a `ValueError` from `squeeze`. pandas' NaN truthiness is not modelled, because a stored status is one of NotAttempted, Succeeded or Failed.
- The lookup helpers `get_pmid_by_gds_uid` and `get_gds_uid_by_pmid` (Nspider.py:336-357) are not modelled. They compare scalars against whole frames and indexes.
- Binding.Env: the resolver's answers are an oracle. `Binding.ResolvedBy` states, without unfolding the resolver inside the binding, that the oracle agrees with `Resolver.Resolve`.
- The variant's `_register_publication_by_gds_uid` (experiment/nspider.py:433-493) is not modelled. Its resolver path calls the undefined name `no_binded_entry` (line 471), and that path is unreachable, because `_publication[0][0]` (line 445) raises when no publication is found.
- The variant's `_get_text_from_publication` is not modelled. It reads the undefined name `pdfReader` (line 307).
- Variant.Classify: the rest of the variant's `load_publication` is not modelled. It reads the undefined name `mode` (line 506) and the misspelled column `successful_download`.
- The variant's modes other than `csv` are not modelled. Its extra gds columns are not modelled either, because they are always `None`.
- Script entry points are not modelled. This covers the argparse blocks, `get_last_file` and `excute`'s `print`.
- Variant.RegisterStrict: a DOI with no primary outcome gets a NaN status after the merge, modelled as NotAttempted.

## Findings

| source | as written | input that shows it | evidently intended | confidence | as-written member | corrected member |
|---|---|---|---|---|---|---|
| utils.py:12 | the month list repeats `Jun` and lacks `Jan` | `2019 Jan` is not recognised | all twelve months | not executed | Identifiers.JanuaryRejectedAsWritten | Identifiers.EveryMonthRecognised |
| Nspider.py:74 | the set of registered uids is compared with the `gds_uid` column, which is true for every row, so nothing is filtered | registering `200001` again when it is stored appends a second row | drop the rows whose uid is registered | not executed | Registry.RegisterDatasetAsWrittenDuplicates | Registry.RegisterDatasetUnique |
| Nspider.py:86-87 | the set of registered DOIs is compared with the `doi` columns, so nothing is filtered | registering a stored publication again appends a second row for its DOI | drop publications and sources whose DOI is registered | not executed | Registry.RegisterPublicationAsWrittenDuplicates | Registry.RegisterPublicationUnique |
| experiment/PaperCrawler.py:150 | `bool(Path(...))` is always true, even for `Path('')` | a page whose PDF did not download: the print shortcut is never sent | send the shortcut when no new file appeared | not executed | Crawler.SaveNeverPrintsAsWritten | Crawler.SavePublication |
| experiment/nspider.py:408 | the selector `.rprt .tile a` finds no anchor | once lines 377 and 399 are repaired (as written they raise first, on every call): any dataset with an author-passing candidate gives `IndexError` | `.rprt .title a`, as scraping.py:192 | not executed | Variant.TileSelectorAlwaysFails | Variant.TitleSelectorResolves |
| experiment/nspider.py:264 | the new file is renamed to the bare DOI | DOI `10.1_slash1`: the file becomes `10.1_slash1`, while `load_publication` opens `10.1_slash1.pdf` (line 510) | rename to `<doi>.pdf` | not executed | Variant.RenameMissesLoadPath | Download.RenamedFileIsPdf |
| experiment/nspider.py:264 | the `glob` entry, which already starts with the download directory, is joined onto that directory again | download directory `download`: the rename source `download/download/x.pdf` does not exist and the rename raises `FileNotFoundError` (`Variant.DownloadPaper`) | rename the entry itself, as Nspider.py:149 does | not executed | Variant.RelativeDirectoryExamples | Download.DownloadPaper |
