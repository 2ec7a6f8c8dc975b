# searchengine core, modelled in Dafny

This project models the core of a Spring Boot search engine. The engine stores
sites and pages, extracts lemmas from a page's text, keeps a lemma table with
frequencies and an `idx` table linking lemmas to pages, and answers queries
with ranked, windowed hits. It covers:

- the site state machine (INDEXING / INDEXED / FAILED) and the retry loop of
  the background indexer, together with the `isIndexingInProgress` guard of
  the REST controller;
- the write path of page indexing: the page row, the lemma upserts (looked up
  by text alone) and the appended `idx` rows;
- the search path: query lemmas, page selection by the repository's JPQL
  queries and an all-lemmas filter, occurrence-count scoring normalised by the
  best page, stable sorting, snippets, and the `skip`/`limit` window;
- the result DTO, with its defaults and equality, and the `Lemma` entity, with
  its 32-bit frequency counter and id-blind equality.

## Layout

One module per core Java file, plus three shared modules:

- `common.dfy`: Option, Result, the Java exceptions the core throws, the site status.
- `text.dfy`: Java's character classes on ASCII, `String.split` for the three
  patterns used, `indexOf`, occurrence counting, `replaceAll` of a literal
  word, and `distinct`.
- `store.dfy`: the rows of the four tables, a `Database` class holding them
  with auto-increment counters, the repository saves, and a `Site` class for
  the detached entity objects the services mutate.

Each state-changing operation is a method on `Database` (and `Site` where the
source mutates the entity) proved equal to a pure specification function.
The lemmas state the properties of those functions. The clock (`new Date()`) is the
parameter `now`. The fetched document, the HTML cleaner and `java.net.URL`
are parameters as well. The controller's flag is a field of the `Controller`
class.

The model follows the code where a design description of the system would
expect something else:

- lemma rows are looked up by text alone, not per site;
- a lemma's frequency rises by one per page, not by the occurrence count;
- processing a page again appends a second batch of `idx` rows instead of
  replacing the first;
- as written, the indexer leaves every site row INDEXING (see Findings);
- as written, `indexPageManually` indexes no page: its page row has no site,
  which the NOT NULL `siteid` column refuses (see Findings);
- `saveLemmaAndIndex` saves the `idx` row exactly as the caller built it and
  does not link it to the lemma it has just saved.

## Model

| member | source | states |
|---|---|---|
| Store.SiteByUrl | searchengine-master/src/main/java/searchengine/services/SiteService.java:128 | `findByUrl`: the first row with the url, None iff no row has it |
| Store.SiteById | searchengine-master/src/main/java/searchengine/services/LemmaService.java:111 | `findById`: the row with the id, None iff no row has it |
| Store.PageInsert | searchengine-master/src/main/java/searchengine/services/PageDataService.java:21-31 | `saveAndFlush`: fails iff the NOT NULL columns are enforced and the page has no site, writing nothing; otherwise the repository save |
| Store.IndexInsert | searchengine-master/src/main/java/searchengine/entity/Index.java:33-34 | fails iff the NOT NULL columns are enforced and the row has no idx, writing nothing; otherwise the repository save |
| Store.LemmaByText | searchengine-master/src/main/java/searchengine/services/LemmaService.java:119 | `findByLemmaText`: the first row with the text, None (null) iff no row has it |
| Store.LemmaByTextUnique | searchengine-master/src/main/java/searchengine/repository/LemmaRepository.java:13 | on a table whose texts are unique the row found is the only one with the text, as the single-result query returns |
| Text.SplitPieces | searchengine-master/src/main/java/searchengine/services/LemmaService.java:52 | `split("\\W+")` pieces hold no separator and only the first may be empty, which happens only when the text starts with a separator |
| Text.SplitLeadingSeparator | searchengine-master/src/main/java/searchengine/services/LemmaService.java:52 | a text starting with a separator, and not all separators, splits into a leading empty piece followed by others |
| Text.SplitAllSeparators | searchengine-master/src/main/java/searchengine/services/LemmaService.java:52 | a non-empty text made only of separators splits into no pieces |
| Text.DigitsInsideAreJoined | searchengine-master/src/main/java/searchengine/services/LemmaService.java:58 | `replaceAll("\\d", "")` deletes a digit and joins what was around it |
| Text.ContainsIffCounted | searchengine-master/src/main/java/searchengine/services/SearchService.java:111 | `contains` holds iff the occurrence count is at least one |
| Text.CountFromIndexOf | searchengine-master/src/main/java/searchengine/services/SearchService.java:186-194 | repeated `indexOf` from a position finds exactly the occurrences counted from there |
| Text.ReplaceAllNoMatch | searchengine-master/src/main/java/searchengine/services/SearchService.java:198 | replacing a word that does not occur, case-insensitively, leaves the text unchanged |
| Text.DistinctSpec | searchengine-master/src/main/java/searchengine/services/SearchService.java:89 | `distinct()` keeps exactly the elements of the list, each once |
| DatabaseService.Stamped | searchengine-master/src/main/java/searchengine/services/DatabaseService.java:45-47 | the row keeps id, url and name and becomes INDEXING at the current time with an empty last error |
| DatabaseService.SaveOrUpdateSiteAbsent | searchengine-master/src/main/java/searchengine/services/DatabaseService.java:43-48 | for a url with no row, exactly one stamped row is appended under the next id and the object takes that id |
| DatabaseService.SaveOrUpdateSiteExisting | searchengine-master/src/main/java/searchengine/services/DatabaseService.java:49-55 | for a stored url no row is added: the first row with the url is stamped in place, its name kept, and the object passed in is left alone |
| DatabaseService.SaveOrUpdateSite | searchengine-master/src/main/java/searchengine/services/DatabaseService.java:41-58 | the object and tables after the call are those of the two branches above |
| DatabaseService.SavePage | searchengine-master/src/main/java/searchengine/services/DatabaseService.java:60-65 | the tables after the call are the page save of the repository |
| DatabaseService.SaveLemmaAndIndexIsOneUnit | searchengine-master/src/main/java/searchengine/services/DatabaseService.java:67-73 | both rows are written or neither: a failure of the idx save leaves all four tables as they were; on success the lemma and the idx row as the caller built it, its lemma id unchanged, are each stored under their own id |
| DatabaseService.SaveLemmaAndIndexAppends | searchengine-master/src/main/java/searchengine/services/DatabaseService.java:69-70 | two new rows are appended under the next lemma and idx ids, and the idx row keeps the lemma id it was given, whether or not that is the new lemma's |
| DatabaseService.SaveLemmaAndIndex | searchengine-master/src/main/java/searchengine/services/DatabaseService.java:67-73 | the tables and result after the call are those of the one-transaction specification |
| DatabaseService.UpdateSiteStatusStamps | searchengine-master/src/main/java/searchengine/services/DatabaseService.java:75-82 | on an object stored under its id, only the status and status time of its row change |
| DatabaseService.UpdateSiteStatus | searchengine-master/src/main/java/searchengine/services/DatabaseService.java:75-82 | the object and tables after the call are the status-and-time save |
| SiteService.ConvertToEntitySite | searchengine-master/src/main/java/searchengine/services/SiteService.java:42-51 | a new, id-less site with the configured url and name, INDEXING at the current time, with an empty last error |
| SiteService.ConvertedSiteIsNew | searchengine-master/src/main/java/searchengine/services/SiteService.java:44-50 | saving a converted site appends exactly one row, under a fresh id, and keeps the keys valid |
| SiteService.GetAllConfigSitesAsEntities | searchengine-master/src/main/java/searchengine/services/SiteService.java:56-68 | no sites for a missing list; otherwise one converted site per configured site, in the same order |
| SiteService.ExistsByStatus | searchengine-master/src/main/java/searchengine/services/SiteService.java:75 | true iff some row has the status |
| SiteService.ExistsByUrlAndStatus | searchengine-master/src/main/java/searchengine/services/SiteService.java:76 | true iff some row has both the url and the status |
| SiteService.IsSiteIndexed | searchengine-master/src/main/java/searchengine/services/SiteService.java:73-79 | with a null or empty url, true iff some site is INDEXED; otherwise true iff a row with that url is INDEXED |
| SiteService.IndexedUrlMeansSomeIndexed | searchengine-master/src/main/java/searchengine/services/SiteService.java:73-79 | an INDEXED url implies the url-less check holds |
| SiteService.FindSiteByUrl | searchengine-master/src/main/java/searchengine/services/SiteService.java:84-92 | the first row with the url, or IllegalArgumentException naming the url when there is none |
| SiteService.Refreshed | searchengine-master/src/main/java/searchengine/services/SiteService.java:142-145 | the stored row takes the new name, INDEXING, the current time and no error; id and url are kept |
| SiteService.SaveOrUpdateExisting | searchengine-master/src/main/java/searchengine/services/SiteService.java:130-146 | a stored url is refreshed in place: no row is added and every other row is unchanged |
| SiteService.SaveOrUpdateAbsent | searchengine-master/src/main/java/searchengine/services/SiteService.java:147-150 | an unknown url gets exactly one new INDEXING row with no error, under the next id |
| SiteService.SaveOrUpdateIgnoresPriorState | searchengine-master/src/main/java/searchengine/services/SiteService.java:133-145 | the stale-INDEXING branch has no lasting effect: whatever the stored status, time and error, the result is the same |
| SiteService.SaveOrUpdateIdempotent | searchengine-master/src/main/java/searchengine/services/SiteService.java:127-151 | saving twice at the same time leaves the same table as saving once |
| SiteService.SaveOrUpdateStoresIndexing | searchengine-master/src/main/java/searchengine/services/SiteService.java:127-151 | whatever the table held, afterwards the url leads to an INDEXING row with no error and the keys stay valid |
| SiteService.SaveOrUpdateSite | searchengine-master/src/main/java/searchengine/services/SiteService.java:126-151 | the tables and returned row after the call are those of the upsert specification |
| SiteService.SavedObjectInSync | searchengine-master/src/main/java/searchengine/services/SiteService.java:160 | saving an object whose id is stored makes that row equal to the object |
| SiteService.UpdateSiteStatusOnlyStatus | searchengine-master/src/main/java/searchengine/services/SiteService.java:157-162 | on a stored object only the status of its row changes; the status time is not touched |
| SiteService.UpdateSiteLastErrorOnlyError | searchengine-master/src/main/java/searchengine/services/SiteService.java:168-173 | on a stored object only the last error of its row changes |
| SiteService.UpdateSiteStatus | searchengine-master/src/main/java/searchengine/services/SiteService.java:157-162 | the object and tables after the call are the status save |
| SiteService.UpdateSiteLastError | searchengine-master/src/main/java/searchengine/services/SiteService.java:168-173 | the object and tables after the call are the last-error save |
| LemmaService.WordLemma | searchengine-master/src/main/java/searchengine/services/LemmaService.java:56-63 | a word yields a lemma iff, digits removed, it is all letters and at least three long; the lemma is that text lowercased |
| LemmaService.WordLemmaJoinsDigits | searchengine-master/src/main/java/searchengine/services/LemmaService.java:58 | a digit between two runs of letters is deleted and the runs are joined |
| LemmaService.WordLemmaRejects | searchengine-master/src/main/java/searchengine/services/LemmaService.java:58-62 | a word with an underscore, or with fewer than three characters once digits are gone, yields no lemma |
| LemmaService.Accepted | searchengine-master/src/main/java/searchengine/services/LemmaService.java:55-65 | one lemma per kept word, in order; each is a lower-case letter word of three or more |
| LemmaService.AcceptedLemmasSpec | searchengine-master/src/main/java/searchengine/services/LemmaService.java:52-65 | every counted lemma comes from a piece of the split and every piece passing the filter is counted |
| LemmaService.TallySpec | searchengine-master/src/main/java/searchengine/services/LemmaService.java:53-64 | the map has a key exactly for each lemma seen, and its value is the lemma's number of occurrences |
| LemmaService.CountsSumToAccepted | searchengine-master/src/main/java/searchengine/services/LemmaService.java:55-65 | the counts add up to the number of accepted words |
| LemmaService.CountLemmas | searchengine-master/src/main/java/searchengine/services/LemmaService.java:52-65 | the first loop's map equals the tally of the accepted lemmas and its key order is first-occurrence order |
| LemmaService.SaveLemmaFails | searchengine-master/src/main/java/searchengine/services/LemmaService.java:106-135 | saving fails iff no site has the id; the failure is a RuntimeException wrapping the not-found message, and nothing is written |
| LemmaService.SaveLemmaUpserts | searchengine-master/src/main/java/searchengine/services/LemmaService.java:118-129 | with the site present the lookup by text finds the returned row with frequency one higher; a row is created only when none had the text; other texts are unaffected |
| LemmaService.SaveLemmaKeepsTextsUnique | searchengine-master/src/main/java/searchengine/services/LemmaService.java:118-129 | the upsert never gives a second row to a text: unique texts stay unique |
| LemmaService.SaveLemmaCreates | searchengine-master/src/main/java/searchengine/services/LemmaService.java:120-123 | the create branch appends one row with frequency 1 for the site, under the next id |
| LemmaService.SaveLemmaIncrements | searchengine-master/src/main/java/searchengine/services/LemmaService.java:124-127 | the update branch keeps the found row's place, id and site and adds one to its frequency |
| LemmaService.SaveLemma | searchengine-master/src/main/java/searchengine/services/LemmaService.java:106-136 | the tables and result after the call are those of the upsert specification |
| LemmaService.SaveOrUpdateLemma | searchengine-master/src/main/java/searchengine/services/LemmaService.java:146-148 | the call is saveLemma with the site's id |
| LemmaService.SaveEntriesOutcome | searchengine-master/src/main/java/searchengine/services/LemmaService.java:69-90 | with the site missing the loop stops at its first entry with that error; with the site present it never fails |
| LemmaService.SaveEntryWrites | searchengine-master/src/main/java/searchengine/services/LemmaService.java:74-87 | one pass upserts the lemma row and appends an idx row pointing at it, with the count as rank |
| LemmaService.SaveEntriesLemmas | searchengine-master/src/main/java/searchengine/services/LemmaService.java:69-90 | each distinct lemma's frequency rises by exactly one, other texts' rows are unchanged, and sites and pages are not touched |
| LemmaService.SaveEntriesIndex | searchengine-master/src/main/java/searchengine/services/LemmaService.java:69-90 | one idx row per lemma is appended in order after every earlier row |
| LemmaService.ProcessLemmasFails | searchengine-master/src/main/java/searchengine/services/LemmaService.java:92-95 | processLemmas fails iff the site is missing and the text has a lemma; then nothing is written and the RuntimeException wraps the first lemma's message |
| LemmaService.ProcessLemmasSucceeds | searchengine-master/src/main/java/searchengine/services/LemmaService.java:49-96 | with the site present the call succeeds, keeps the keys valid and leaves sites and pages alone |
| LemmaService.ProcessLemmasCountsPages | searchengine-master/src/main/java/searchengine/services/LemmaService.java:69-76 | each lemma of the text gains exactly one frequency, however often it occurs on the page |
| LemmaService.ProcessLemmasIndexes | searchengine-master/src/main/java/searchengine/services/LemmaService.java:77-87 | one idx row per distinct lemma, in first-occurrence order, with its occurrence count as rank and idx 1 |
| LemmaService.ProcessLemmasAppendsBatch | searchengine-master/src/main/java/searchengine/services/LemmaService.java:49-96 | a run adds one batch of idx rows after the old ones and leaves a valid database with the site present |
| LemmaService.ReprocessingDuplicatesRows | searchengine-master/src/main/java/searchengine/services/LemmaService.java:78-87 | processing the same page twice leaves two idx rows per lemma: rows are appended, never updated |
| LemmaService.ProcessLemmas | searchengine-master/src/main/java/searchengine/services/LemmaService.java:49-96 | the tables and result after the call are those of the processLemmas specification |
| PageRepository.FindPagesByLemmas | searchengine-master/src/main/java/searchengine/repository/PageRepository.java:26-28 | exactly the pages, in table order, whose id occurs in an idx row for one of the lemmas |
| PageRepository.FindPagesByLemmasAndSite | searchengine-master/src/main/java/searchengine/repository/PageRepository.java:20-23 | exactly the pages of the site, in table order, whose id occurs in an idx row for one of the lemmas |
| PageRepository.ScopedIsRestrictedUnscoped | searchengine-master/src/main/java/searchengine/repository/PageRepository.java:20-28 | the site-scoped answer is the unscoped answer restricted to the site, order included |
| PageRepository.MoreLemmasKeepPages | searchengine-master/src/main/java/searchengine/repository/PageRepository.java:26-28 | asking for more lemmas keeps every page a smaller list found, in the same order |
| PageRepository.EachPageOnce | searchengine-master/src/main/java/searchengine/repository/PageRepository.java:26-28 | the IN-subquery returns each page at most once, however many idx rows match it |
| PageRepository.QueriesReturnEachPageOnce | searchengine-master/src/main/java/searchengine/repository/PageRepository.java:20-28 | on a table with valid keys neither query returns a page twice |
| PageService.PageTitle | searchengine-master/src/main/java/searchengine/services/PageService.java:78-82 | the document's title unless it is null or blank, then "Без названия"; never blank |
| PageService.PageTitleIdempotent | searchengine-master/src/main/java/searchengine/services/PageService.java:78-82 | a stored title is kept when the page is stored again |
| PageService.FirstIndexed | searchengine-master/src/main/java/searchengine/services/PageService.java:95-97 | the position of the first INDEXED site, None iff there is none |
| PageService.ChooseSite | searchengine-master/src/main/java/searchengine/services/PageService.java:95-98 | the first INDEXED site with the base url, or the first such site when none is INDEXED |
| PageService.ChosenSiteIsStored | searchengine-master/src/main/java/searchengine/services/PageService.java:89-98 | the chosen site is found again by its id |
| PageService.NewPageSaved | searchengine-master/src/main/java/searchengine/services/PageService.java:102-108 | saving the new page leaves the site table alone and the keys valid |
| PageService.IndexPageFails | searchengine-master/src/main/java/searchengine/services/PageService.java:68-93 | indexPage fails iff the fetch failed or no site has the base url, and then nothing is written |
| PageService.IndexPageProcesses | searchengine-master/src/main/java/searchengine/services/PageService.java:111-114 | past the fetch and site lookup, the call is processLemmas on the cleaned html with the new page saved |
| PageService.IndexPageStoresPage | searchengine-master/src/main/java/searchengine/services/PageService.java:102-108 | on success exactly one page row is appended: url, html, code 200, title or its default, and the chosen site |
| PageService.IndexPageIndexes | searchengine-master/src/main/java/searchengine/services/PageService.java:111-114 | on success the new idx rows belong to the new page: one per distinct lemma, ranked by occurrences, idx 1 |
| PageService.IndexPageKeepsSites | searchengine-master/src/main/java/searchengine/services/PageService.java:59-118 | whatever happens, the site table is unchanged and the keys stay valid |
| PageService.IndexPage | searchengine-master/src/main/java/searchengine/services/PageService.java:59-118 | the tables and result after the call are those of the indexPage specification |
| PageService.Lowered | searchengine-master/src/main/java/searchengine/services/PageService.java:145 | the lowercased words, one per word, each of the same length |
| PageService.ManualTokens | searchengine-master/src/main/java/searchengine/services/PageService.java:140-145 | one token per piece of the split; every token is word characters without upper case |
| PageService.ManualCountsEveryPiece | searchengine-master/src/main/java/searchengine/services/PageService.java:143-147 | the counts add up to the number of pieces: no length or letter filter |
| PageService.ManualCountsLeadingEmpty | searchengine-master/src/main/java/searchengine/services/PageService.java:140-147 | a text starting with a separator yields a counted empty token |
| PageService.CountTokens | searchengine-master/src/main/java/searchengine/services/PageService.java:143-147 | the first loop's map is the tally of the lowercased pieces, keys in first-occurrence order |
| PageService.SaveManualLemma | searchengine-master/src/main/java/searchengine/services/PageService.java:155-167 | the tables and result after the step are those of its specification |
| PageService.ManualLemmaIsSaveLemma | searchengine-master/src/main/java/searchengine/services/PageService.java:155-167 | with site 1 present the step does what saveLemma(text, 1) does |
| PageService.ManualLemmaFails | searchengine-master/src/main/java/searchengine/services/PageService.java:156-159 | the step fails iff the text has no row and site 1 is missing, and then writes nothing |
| PageService.ManualLemmaIncrements | searchengine-master/src/main/java/searchengine/services/PageService.java:164-166 | an existing row is updated in place whether or not site 1 exists |
| PageService.ManualLemmaUpserts | searchengine-master/src/main/java/searchengine/services/PageService.java:155-167 | with site 1 present or the text stored, the lookup finds the returned row with frequency one higher; other texts are unaffected |
| PageService.ManualEntriesRefusedAsWritten | searchengine-master/src/main/java/searchengine/services/PageService.java:170-175 | as written the first pass always fails: the idx row without idx is refused by the NOT NULL column, unless the lemma step's EntityNotFoundException came first |
| PageService.ManualEntriesAreSaveEntries | searchengine-master/src/main/java/searchengine/services/PageService.java:151-176 | on a schema that accepts the null `idx` and with site 1 present, the manual loop is processLemmas' loop for site 1 except that idx stays unset (the corrected reading, see Findings) |
| PageService.ManualEntryIncrements | searchengine-master/src/main/java/searchengine/services/PageService.java:164-175 | on a schema that accepts the null `idx` and with site 1 missing, a pass over a stored text succeeds and keeps every row's text in place |
| PageService.ManualEntriesWithoutSiteOne | searchengine-master/src/main/java/searchengine/services/PageService.java:151-176 | on a schema that accepts the null `idx` and with site 1 missing, the loop fails iff some word has no lemma row, with EntityNotFoundException |
| PageService.IndexPageManuallyRejectsEveryPage | searchengine-master/src/main/java/searchengine/services/PageService.java:133-136 | as written every fetched page is refused at `saveAndFlush` for its null `siteid`, and the call throws with every table as it was |
| PageService.IndexPageManuallyFails | searchengine-master/src/main/java/searchengine/services/PageService.java:124-177 | the call fails iff the fetch failed, the NOT NULL columns are enforced, or site 1 is missing and some word has no lemma row; the error is the `siteid` violation or EntityNotFoundException; a failure leaves the tables unchanged |
| PageService.IndexPageManuallyWrites | searchengine-master/src/main/java/searchengine/services/PageService.java:124-177 | on a schema that accepts the nulls and with site 1 present: one page row without a site, one more frequency per distinct word, one idx row per distinct word ranked by occurrences (the corrected reading, see Findings) |
| PageService.IndexPageManually | searchengine-master/src/main/java/searchengine/services/PageService.java:124-177 | the tables and result after the call are those of its specification, for either schema |
| SearchService.LemmatizeWord | searchengine-master/src/main/java/searchengine/services/SearchService.java:92-94 | exactly the word's characters that are word characters and not digits, in order: the filter of the word by letter-or-underscore |
| Text.Filter | searchengine-master/src/main/java/searchengine/services/SearchService.java:92-94 | a character is in the result iff it is in the text and kept, and the result is no longer than the text |
| Text.FilterCounts | searchengine-master/src/main/java/searchengine/services/SearchService.java:92-94 | every occurrence of a kept character survives and none of the others |
| Text.RemoveDigitsThenNonWord | searchengine-master/src/main/java/searchengine/services/SearchService.java:92-94 | removing digits and then non-word characters is the single filter of letters and underscores |
| SearchService.LemmatizeAll | searchengine-master/src/main/java/searchengine/services/SearchService.java:87 | one lemmatized word per word, in order |
| SearchService.LongEnough | searchengine-master/src/main/java/searchengine/services/SearchService.java:88 | exactly the words of length three or more, in order |
| SearchService.ExtractLemmasSpec | searchengine-master/src/main/java/searchengine/services/SearchService.java:85-91 | the query lemmas are exactly the lemmatized query words of three or more characters, each listed once and lower-case |
| SearchService.QueryLemmasScore | searchengine-master/src/main/java/searchengine/services/SearchService.java:85-91 | query lemmas are non-empty words, so counting and highlighting them is well defined |
| SearchService.KeepContainingAll | searchengine-master/src/main/java/searchengine/services/SearchService.java:110-112 | exactly the pages whose lowercased content contains every lemma, in order |
| SearchService.FilterPagesSpec | searchengine-master/src/main/java/searchengine/services/SearchService.java:96-113 | without a site: the indexed pages containing all lemmas; with a site: the same restricted to the first site row with the url; an unknown site gives none |
| SearchService.ScoreAtLeastLemmaCount | searchengine-master/src/main/java/searchengine/services/SearchService.java:179-184 | a page containing every lemma scores at least one per lemma |
| SearchService.ScoreAtMostContentLength | searchengine-master/src/main/java/searchengine/services/SearchService.java:179-184 | no lemma is counted more often than the content has characters |
| SearchService.CountOccurrences | searchengine-master/src/main/java/searchengine/services/SearchService.java:186-194 | the loop returns the number of non-overlapping occurrences of the lemma |
| SearchService.CalculatePageRelevance | searchengine-master/src/main/java/searchengine/services/SearchService.java:179-184 | the score is the sum over the lemmas of their occurrences in the lowercased content |
| SearchService.FullUrl | searchengine-master/src/main/java/searchengine/services/SearchService.java:130-131 | the path when it starts with "http", else site url and path joined by exactly one slash |
| SearchService.StripScheme | searchengine-master/src/main/java/searchengine/services/SearchService.java:176 | the url without a leading http:// or https://, unchanged otherwise |
| SearchService.FileName | searchengine-master/src/main/java/searchengine/services/SearchService.java:170-177 | what follows the last slash, or the site url without its scheme when nothing follows one |
| SearchService.ExtractBaseUrl | searchengine-master/src/main/java/searchengine/services/SearchService.java:151-158 | protocol and host, or the url itself when it does not parse |
| SearchService.ExtractRelativeUrl | searchengine-master/src/main/java/searchengine/services/SearchService.java:160-168 | the path, or "" when the url does not parse |
| SearchService.UrlHelpersAgreeWithDto | searchengine-master/src/main/java/searchengine/services/SearchService.java:151-168 | the service and the DTO agree on the base url and differ on the relative url exactly when the url has a query |
| SearchService.Truncate | searchengine-master/src/main/java/searchengine/services/SearchService.java:200 | texts over 200 characters are cut to 200 and get "..."; shorter ones are kept |
| SearchService.HighlightOneGrowth | searchengine-master/src/main/java/searchengine/services/SearchService.java:198 | each case-insensitive occurrence is wrapped in <b></b>, growing the text by seven per occurrence |
| SearchService.SnippetShape | searchengine-master/src/main/java/searchengine/services/SearchService.java:196-201 | a snippet is at most 203 characters, the whole highlighted text when it fits, else its first 200 characters |
| SearchService.GenerateSnippet | searchengine-master/src/main/java/searchengine/services/SearchService.java:196-201 | the loop returns the highlighted, truncated content |
| SearchService.PageSite | searchengine-master/src/main/java/searchengine/services/SearchService.java:128 | the site row the page points at, None when it has none |
| SearchService.Scores | searchengine-master/src/main/java/searchengine/services/SearchService.java:118-121 | one score per page, in order |
| SearchService.MaxScore | searchengine-master/src/main/java/searchengine/services/SearchService.java:123 | the maximum is one of the scores and no score exceeds it |
| SearchService.MaxRelevance | searchengine-master/src/main/java/searchengine/services/SearchService.java:123 | the highest score, or 1 without pages; at least the number of lemmas when every page has them all |
| SearchService.Hit | searchengine-master/src/main/java/searchengine/services/SearchService.java:138-146 | the DTO of a page: base and relative url of its absolute url, title or default, snippet, relevance, site name, file name |
| SearchService.Snippets | searchengine-master/src/main/java/searchengine/services/SearchService.java:142 | one snippet per page, in order |
| SearchService.Relevances | searchengine-master/src/main/java/searchengine/services/SearchService.java:143 | one relevance per page |
| SearchService.RelevancesInUnitInterval | searchengine-master/src/main/java/searchengine/services/SearchService.java:123-143 | every relevance lies in (0, 1] and the best page's is exactly 1 |
| SearchService.Hits | searchengine-master/src/main/java/searchengine/services/SearchService.java:125-148 | one hit for each of the first n pages |
| SearchService.RelevanceSpec | searchengine-master/src/main/java/searchengine/services/SearchService.java:115-149 | relevance in (0, 1], best page 1, each hit carrying its page's title, site name and snippet; an error iff some page has no site |
| SearchService.ScorePages | searchengine-master/src/main/java/searchengine/services/SearchService.java:118-121 | the first loop returns every page's score, in order |
| SearchService.CalculateRelevance | searchengine-master/src/main/java/searchengine/services/SearchService.java:115-149 | the method returns the relevance specification's result |
| SearchService.InsertByRelevance | searchengine-master/src/main/java/searchengine/services/SearchService.java:73 | the result holds the sorted hits plus the inserted one, as a multiset |
| SearchService.SortByRelevance | searchengine-master/src/main/java/searchengine/services/SearchService.java:73 | the result is a permutation of the hits |
| SearchService.SortByRelevanceSpec | searchengine-master/src/main/java/searchengine/services/SearchService.java:72-73 | the sort returns the same hits, highest relevance first |
| SearchService.Paginate | searchengine-master/src/main/java/searchengine/services/SearchService.java:74-75 | a negative offset, then a negative limit, throws IllegalArgumentException with the number; otherwise exactly the hits from offset on, at most limit of them |
| SearchService.FilteredPagesContainAll | searchengine-master/src/main/java/searchengine/services/SearchService.java:109-112 | every selected page's content contains every lemma |
| SearchService.Search | searchengine-master/src/main/java/searchengine/services/SearchService.java:40-77 | the method returns what the search specification says |
| SearchService.SearchRejectsBadRequests | searchengine-master/src/main/java/searchengine/services/SearchService.java:41-61 | a blank query, a query without lemmas, or an unknown non-empty site is rejected with IllegalArgumentException and its message, in that order |
| SearchService.SearchAccepts | searchengine-master/src/main/java/searchengine/services/SearchService.java:63-76 | a request passing the checks is answered from the filtered pages |
| SearchService.NoMatchesIgnoresWindow | searchengine-master/src/main/java/searchengine/services/SearchService.java:66-70 | no matching page gives the empty list whatever offset and limit are |
| SearchService.WindowOfSortedHits | searchengine-master/src/main/java/searchengine/services/SearchService.java:72-76 | a window of the sorted hits is highest first, relevances in (0, 1], limit hits or fewer at the end, relevance 1 first at offset 0 |
| SearchService.RankedWindowSpec | searchengine-master/src/main/java/searchengine/services/SearchService.java:63-76 | the answer for selected pages is a ranked window of their hits |
| SearchService.SearchResultsRanked | searchengine-master/src/main/java/searchengine/services/SearchService.java:40-77 | a successful search returns a window of the matching pages' hits, highest relevance first, each in (0, 1], the first window starting with 1 |
| SearchResultDto.OrElse | searchengine-master/src/main/java/searchengine/dto/statistics/SearchResultDTO.java:57-61 | the value when it is not null, else the fallback |
| SearchResultDto.Default | searchengine-master/src/main/java/searchengine/dto/statistics/SearchResultDTO.java:64-72 | site and uri "", title "Без названия", snippet "", relevance 0, site name "Неизвестный сайт", file name "" |
| SearchResultDto.FromSearchResult | searchengine-master/src/main/java/searchengine/dto/statistics/SearchResultDTO.java:40-52 | a null SearchResult gives the defaults; otherwise base and relative url of its uri, null strings replaced by defaults, relevance 0 |
| SearchResultDto.Create | searchengine-master/src/main/java/searchengine/dto/statistics/SearchResultDTO.java:54-62 | site, uri and relevance copied; null title, snippet, site name and file name replaced by their defaults |
| SearchResultDto.EqualsIffSameFields | searchengine-master/src/main/java/searchengine/dto/statistics/SearchResultDTO.java:122-134 | between DTOs whose site and uri are set, equals holds iff all seven fields are equal, and never with null |
| SearchResultDto.EqualsReflexive | searchengine-master/src/main/java/searchengine/dto/statistics/SearchResultDTO.java:124 | a DTO equals itself |
| SearchResultDto.EqualsSymmetric | searchengine-master/src/main/java/searchengine/dto/statistics/SearchResultDTO.java:126-133 | equals is symmetric on DTOs whose site and uri are set |
| SearchResultDto.NullSiteThrows | searchengine-master/src/main/java/searchengine/dto/statistics/SearchResultDTO.java:128 | a copy with a null site is not equal to itself: equals throws NullPointerException |
| SearchResultDto.FromSearchResultKeys | searchengine-master/src/main/java/searchengine/dto/statistics/SearchResultDTO.java:42-43 | the SearchResult constructor always sets uri, and sets site unless the SearchResult's uri was null |
| SearchResultDto.CreateFromOwnFields | searchengine-master/src/main/java/searchengine/dto/statistics/SearchResultDTO.java:54-62 | feeding a DTO's fields back to the seven-argument constructor gives the same DTO |
| SearchResultDto.CreateFromNulls | searchengine-master/src/main/java/searchengine/dto/statistics/SearchResultDTO.java:54-62 | all nullable arguments null give the defaults except site and uri (null) and relevance (copied) |
| IndexingService.SetStatus | searchengine-master/src/main/java/searchengine/services/IndexingService.java:87-88 | a status change followed by the upsert keeps the object's url and last error, sets its status, and keeps a stored id |
| IndexingService.MarkFailed | searchengine-master/src/main/java/searchengine/services/IndexingService.java:121-123 | the object becomes FAILED with the message as last error, keeping url and a stored id |
| IndexingService.IndexPageSpec | searchengine-master/src/main/java/searchengine/services/IndexingService.java:134-167 | success leaves the object INDEXED; failure leaves it FAILED and throws IOException; url and id are kept |
| IndexingService.IndexPageErrorMapping | searchengine-master/src/main/java/searchengine/services/IndexingService.java:148-166 | a timeout is recorded with its prefix, any other failure with its bare message, and each is rethrown as IOException naming the page |
| IndexingService.IndexPageNeverRetried | searchengine-master/src/main/java/searchengine/services/IndexingService.java:148-166 | indexPage never lets a lock failure through |
| IndexingService.IndexPage | searchengine-master/src/main/java/searchengine/services/IndexingService.java:134-167 | the object, tables and result after the call are those of the indexPage specification |
| IndexingService.Mark | searchengine-master/src/main/java/searchengine/services/IndexingService.java:87-88 | the object and tables after the call are those of the status change |
| IndexingService.Fail | searchengine-master/src/main/java/searchengine/services/IndexingService.java:121-123 | the object and tables after the call are those of the catch block |
| IndexingService.SetStatusStores | searchengine-master/src/main/java/searchengine/services/IndexingService.java:87-88 | as written the url is left stored as INDEXING with no error whatever the status; without the upsert the row equals the object |
| IndexingService.MarkFailedStores | searchengine-master/src/main/java/searchengine/services/IndexingService.java:121-123 | as written FAILED and the message are overwritten by INDEXING and no error; without the upsert the row equals the object |
| IndexingService.IndexPageStores | searchengine-master/src/main/java/searchengine/services/IndexingService.java:134-167 | the same two outcomes for a whole indexPage call |
| IndexingService.AttemptStores | searchengine-master/src/main/java/searchengine/services/IndexingService.java:83-102 | the same two outcomes for one pass of the retry loop |
| IndexingService.AttemptSpec | searchengine-master/src/main/java/searchengine/services/IndexingService.java:83-102 | a pass ends INDEXED and Ok, or with the failure of the write or page that threw; url and id are kept |
| IndexingService.ProcessSiteFrom | searchengine-master/src/main/java/searchengine/services/IndexingService.java:77-127 | between one and three attempts; success leaves the object INDEXED; failure leaves it FAILED with IOException; url and id kept |
| IndexingService.ProcessSiteRetriesOnlyLocks | searchengine-master/src/main/java/searchengine/services/IndexingService.java:104-118 | another attempt is made only after a lock failure |
| IndexingService.ProcessSiteReportsCause | searchengine-master/src/main/java/searchengine/services/IndexingService.java:104-125 | a failed run records "Ошибка обработки: " and the cause, and the IOException names the site and carries the same cause |
| IndexingService.ProcessSiteStopsOnOtherFailure | searchengine-master/src/main/java/searchengine/services/IndexingService.java:119-125 | a failure that is not a lock failure ends the loop at once with FAILED and IOException |
| IndexingService.ProcessSiteGivesUpAfterThreeLocks | searchengine-master/src/main/java/searchengine/services/IndexingService.java:104-111 | three lock failures in a row end in FAILED and IOException after the third attempt |
| IndexingService.ProcessSiteLeavesIndexing | searchengine-master/src/main/java/searchengine/services/IndexingService.java:77-127 | as written, processSite always leaves the url stored as INDEXING with no error, success or failure |
| IndexingService.ProcessSiteRecordsOutcome | searchengine-master/src/main/java/searchengine/services/IndexingService.java:77-127 | without the trailing upsert, processSite on a stored site leaves its row equal to the object: INDEXED or FAILED with the cause |
| IndexingService.RunAttempt | searchengine-master/src/main/java/searchengine/services/IndexingService.java:83-102 | the object, tables and result after one pass are those of the pass specification |
| IndexingService.AttemptOnce | searchengine-master/src/main/java/searchengine/services/IndexingService.java:83-125 | one pass with its catch blocks: whether the loop stops and the outcome, as the processSite specification says |
| IndexingService.ProcessSite | searchengine-master/src/main/java/searchengine/services/IndexingService.java:77-127 | the object, tables, result and attempt count after the loop are those of the processSite specification |
| IndexingService.SitesFrom | searchengine-master/src/main/java/searchengine/services/IndexingService.java:51-63 | sites are processed in order; the result is Ok iff every site was processed, and a failure is a RuntimeException |
| IndexingService.StartIndexingWithoutSites | searchengine-master/src/main/java/searchengine/services/IndexingService.java:42-47 | with no site in the table nothing is processed or written and the run fails with the no-sites message |
| IndexingService.IndexSiteAt | searchengine-master/src/main/java/searchengine/services/IndexingService.java:52-62 | one pass of the site loop, with its catch block, as the site-loop specification says |
| IndexingService.StartIndexing | searchengine-master/src/main/java/searchengine/services/IndexingService.java:37-70 | the tables, result and processed count after the run are those of the startIndexing specification |
| ApiController.ValidateSearch | searchengine-master/src/main/java/searchengine/controllers/ApiController.java:68-76 | a missing or blank query is refused first, then a named site that is not indexed; otherwise the request passes (each as an iff) |
| ApiController.BlankQueryRefusedBeforeSiteCheck | searchengine-master/src/main/java/searchengine/controllers/ApiController.java:68-76 | a blank query is refused whatever the site and whatever the table holds |
| ApiController.SearchNeedsIndexedSite | searchengine-master/src/main/java/searchengine/controllers/ApiController.java:73-76 | a named site passes iff a row with that url is INDEXED; without a site the check is skipped |
| ApiController.StartIndexingSpec | searchengine-master/src/main/java/searchengine/controllers/ApiController.java:166-187 | afterwards the flag is set; the request is accepted iff the flag was clear, else refused with "Индексация уже выполняется" |
| ApiController.AcceptedStarts | searchengine-master/src/main/java/searchengine/controllers/ApiController.java:166-187 | single flight: the accepted starts are at most the ends and stops of background indexing, plus one when the flag starts clear |
| ApiController.AtMostOneRunningTask | searchengine-master/src/main/java/searchengine/controllers/ApiController.java:166-187 | with no end of background indexing and no stop in between, at most one start is accepted, none while indexing runs |
| ApiController.StartAcceptedAfterTaskEnds | searchengine-master/src/main/java/searchengine/controllers/ApiController.java:181-183 | after the background indexing ends or indexing is stopped, the next start is accepted |
| ApiController.Controller.constructor | searchengine-master/src/main/java/searchengine/controllers/ApiController.java:44 | the flag starts clear |
| ApiController.Controller.StartIndexing | searchengine-master/src/main/java/searchengine/controllers/ApiController.java:166-187 | the flag and the answer after the call are those of the start specification |
| ApiController.Controller.IndexingTaskEnded | searchengine-master/src/main/java/searchengine/controllers/ApiController.java:179-183 | the flag is cleared whether the background indexing returned or threw |
| ApiController.Controller.StopIndexingService | searchengine-master/src/main/java/searchengine/controllers/ApiController.java:274-276 | the flag is cleared |
| ApiController.LongWords | searchengine-master/src/main/java/searchengine/controllers/ApiController.java:107 | exactly the words longer than two characters; no duplicates are introduced |
| ApiController.ExtractLemmas | searchengine-master/src/main/java/searchengine/controllers/ApiController.java:103-109 | no duplicates; a word is listed iff it is a lowercased piece of the whitespace split longer than two characters |
| ApiController.ExtractedLemmasAreWords | searchengine-master/src/main/java/searchengine/controllers/ApiController.java:103-109 | each lemma is at least three long, has no whitespace and no upper-case letter, and is the lowercasing of a piece of the query |
| ApiController.IsValidUrl | searchengine-master/src/main/java/searchengine/controllers/ApiController.java:270-272 | a valid url starts with "http" |
| ApiController.ValidUrlSchemes | searchengine-master/src/main/java/searchengine/controllers/ApiController.java:270-272 | valid iff the url starts with http:// or https://; an ftp:// url is refused |
| ApiController.ValidUrlIsAbsolute | searchengine-master/src/main/java/searchengine/controllers/ApiController.java:270-272 | a valid url is kept as it is when a search hit's absolute url is built |
| ApiController.Modified | searchengine-master/src/main/java/searchengine/controllers/ApiController.java:259-263 | the new site has no id, the url and name copied, INDEXING at the current time, no error |
| ApiController.SaveEachAppends | searchengine-master/src/main/java/searchengine/controllers/ApiController.java:266 | saving id-less sites one by one appends them in order under consecutive ids, each object taking its row's id |
| ApiController.ModifyAndSaveSitesAppends | searchengine-master/src/main/java/searchengine/controllers/ApiController.java:255-268 | one new INDEXING site per input site, in order, url and name copied, each stored as a new row after the existing ones |
| ApiController.ModifyAndSaveSites | searchengine-master/src/main/java/searchengine/controllers/ApiController.java:255-268 | the returned list and the tables are those of the specification |
| ApiController.SaveSites | searchengine-master/src/main/java/searchengine/controllers/ApiController.java:266-267 | the saved list and tables after the loop are those of saving each object in turn |
| LemmaEntity.Succ | searchengine-master/src/main/java/searchengine/entity/Lemma.java:44-46 | one more, except that the largest int wraps to the smallest; always one more modulo 2^32 |
| LemmaEntity.SuccInjective | searchengine-master/src/main/java/searchengine/entity/Lemma.java:44-46 | no two counter values step to the same value |
| LemmaEntity.IncrementsCount | searchengine-master/src/main/java/searchengine/entity/Lemma.java:44-46 | until it reaches the largest int the counter counts increments exactly; one more turns it negative |
| LemmaEntity.SameLemma | searchengine-master/src/main/java/searchengine/entity/Lemma.java:7 | equal iff the two values agree once their ids are ignored |
| LemmaEntity.HashKey | searchengine-master/src/main/java/searchengine/entity/Lemma.java:7 | the hash depends on site, text and frequency only |
| LemmaEntity.EqualityIgnoresId | searchengine-master/src/main/java/searchengine/entity/Lemma.java:7 | equal lemmas have the same hash key, and two lemmas differing only in id are equal |
| LemmaEntity.SameLemmaIsEquivalence | searchengine-master/src/main/java/searchengine/entity/Lemma.java:7 | equality is reflexive, symmetric and transitive |
| LemmaEntity.Lemma.constructor | searchengine-master/src/main/java/searchengine/entity/Lemma.java:25-26 | no site, no text, frequency 0 |
| LemmaEntity.Lemma.WithText | searchengine-master/src/main/java/searchengine/entity/Lemma.java:28-32 | the site and text given, frequency 1 |
| LemmaEntity.Lemma.IncrementFrequency | searchengine-master/src/main/java/searchengine/entity/Lemma.java:44-46 | only the frequency changes, to its wrapped successor |
| LemmaEntity.IncrementChangesEquality | searchengine-master/src/main/java/searchengine/entity/Lemma.java:7 | after one of two equal lemmas is incremented they are no longer equal |
| LemmaEntity.CreatedThenIncremented | searchengine-master/src/main/java/searchengine/entity/Lemma.java:28-46 | a lemma created with its text and incremented n times holds n + 1 while that fits in an int |

## Left out

- Network and parsing: `ConnectionService`, the Jsoup fallback, `HtmlCleaner` and `java.net.URL` are library I/O. The fetched document (or its IOException), the cleaner and the URL parser are parameters.
- Time: `new Date()` and `Instant.now()` are the parameter `now`. The two-second pause between attempts of `processSite` and the InterruptedException it may raise (IndexingService.java:113-118) are not modelled.
- Concurrency: `@Async`, `CompletableFuture.runAsync`, `synchronized` and the thread pool are not modelled. The controller's flag is a sequential state machine whose background task reports its end through `Controller.IndexingTaskEnded`.
- Transactions are modelled as one atomic table update. In `PageService` a RuntimeException rolls the tables back, but not the id counters. `startIndexing` runs outside a transaction: its work runs on another thread, and calls within the same bean bypass the proxy.
- Faults are modelled only at the points the retry logic distinguishes: the INDEXING write, the page indexing, and the INDEXED write of each attempt. A failure inside a catch block's own writes is not modelled.
- IndexingService.ProcessSite: the attempts' faults are given as input (`attempts: nat -> Attempt`); the collaborators that would raise them are not modelled.
- Orders: `HashMap` iteration in `processLemmas`, `indexPageManually` and `calculateRelevance` is modelled as first-insertion order. SQL results come back in table order.
- Text: `toLowerCase`, `\W`, `\s` and `\p{L}` are modelled on ASCII. Non-ASCII case mappings (for example the Kelvin sign) are not modelled.
- Numbers: the `float` rank and the lemma table's frequency are unbounded `nat`s. The `double` relevance is a `real`. Only the `Lemma` entity models Java's 32-bit wrap-around.
- LemmaService.SaveLemma: the stored frequency does not wrap at 2^31 - 1, because the table rows hold unbounded counts; LemmaEntity.Succ models the wrap.
- SearchService.CountOccurrences: requires a non-empty lemma. With an empty lemma the source loops forever; query lemmas are never empty.
- LemmaEntity.HashKey: states only which fields the hash depends on. Lombok's hash formula is not modelled.
- Store.LemmaByText: on a lemma table where several rows share a text it returns the first, where Spring Data's single-result `findByLemmaText` throws IncorrectResultSizeDataAccessException. The upserts keep texts unique (LemmaService.SaveLemmaKeepsTextsUnique). Duplicates arise only from `saveLemmaAndIndex` or concurrent upserts, which are not modelled.
- The page title column: `entity/Page.java` declares no title field, yet PageService.java:106 calls `setTitle` and SearchService.java:136 and 141 call `getTitle`. The model assumes a nullable `title` column; PageService.IndexPageStoresPage and SearchService.Hit rely on it.
- NOT NULL columns are modelled only where a row the core builds can leave them null: `page.siteid` (entity/Page.java:22-24) and `idx.idx` (entity/Index.java:33-34), through the `Columns` parameter of the manual path. Every other NOT NULL column is filled by the core or is a non-null type in the model. The database's error message is reduced to the column's message.
- `entity/Site.java` is not part of this model. The unset `lastError` of a `new Site()` is taken to be "". A site reference is the site's id.
- Methods the code calls but no shown class defines:
  - `SiteRepository.findByUrl` is modelled as a lookup of the first row with the url;
  - `SiteService.saveSite` is modelled as a repository save;
  - `IndexingService.search`, `countSearchResults`, `processSitePages` and `startIndexing(sites)` are not part of this model. So the body of the `search` endpoint after validation, the `indexPage` endpoint and the controller's background task are not modelled beyond the flag.
- Endpoints not modelled: `saveLemma`, `statistics` and `startIndexingService` (ApiController.java:116-142, 189-253). They are request plumbing around services modelled elsewhere, or calls into the missing methods.
- `PageRepository.findLemmaRank`, `SiteService.deleteSite`, `clearAllSites` and `getAllSites` are plain repository calls. `getAllSites` is read as the site table.
- `StatisticsServiceImpl` is not modelled: its numbers come from `java.util.Random`. Logging is not modelled.

## Findings

| source | as written | input that shows it | evidently intended | confidence | as-written member | corrected member |
|---|---|---|---|---|---|---|
| searchengine-master/src/main/java/searchengine/services/IndexingService.java:87-123 | every status change is `updateSiteStatus(site, s)` followed by `saveOrUpdateSite(site)`, which stores the site's row as INDEXING with no error | any stored site whose single attempt succeeds: after `processSite` its row is INDEXING, not INDEXED; a site whose page fails keeps INDEXING and an empty last error instead of FAILED and the cause | the row records INDEXED after a success and FAILED with the cause after a failure | not executed | IndexingService.ProcessSiteLeavesIndexing | IndexingService.ProcessSiteRecordsOutcome |
| searchengine-master/src/main/java/searchengine/services/PageService.java:133-136 | `indexPageManually` saves a `new Page()` with only path and content set; `page.siteid` is NOT NULL (entity/Page.java:22-24) in the schema Hibernate generates (DatabaseConfig.java:31), and the later idx rows leave the NOT NULL `idx` unset (entity/Index.java:33-34) | any url whose fetch succeeds: `saveAndFlush` throws DataIntegrityViolationException and nothing is indexed | the fetched page is stored and each of its words counted and indexed, as the comments at PageService.java:132 and 149-150 say | not executed | PageService.IndexPageManuallyRejectsEveryPage | PageService.IndexPageManuallyWrites |
