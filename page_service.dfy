/** PageService: indexing one page by url. `indexPage` stores the page under
    the site its base url names and hands the cleaned text to
    LemmaService.processLemmas; `indexPageManually` stores the page without a
    site and counts and saves every lowercased word itself. The fetch and the
    HTML cleaner are inputs; the class is transactional, so a
    RuntimeException rolls the tables back. */
module PageService {
  import opened Common
  import opened Text
  import opened Store
  import opened LemmaService
  import SearchResultDto
  import SearchService

  /** What fetching the url gave: the document's html and title. */
  datatype Document = Document(html: string, title: Option<string>)

  // ---------------------------------------------------------------------------
  // indexPage

  /** The title `indexPage` stores: the document's own, unless it is null or
      blank. */
  function PageTitle(title: Option<string>): (r: string)
    ensures !IsBlank(r)
    ensures r == SearchResultDto.DefaultTitle || (title.Some? && r == title.value)
    ensures title.Some? && !IsBlank(title.value) ==> r == title.value
  {
    assert SearchResultDto.DefaultTitle[0] > ' ';
    if title.None? || IsBlank(title.value) then SearchResultDto.DefaultTitle else title.value
  }

  /** A stored title is kept as it is when the page is stored again. */
  lemma PageTitleIdempotent(title: Option<string>)
    ensures PageTitle(Some(PageTitle(title))) == PageTitle(title)
  {
  }

  /** `filter(s -> s.getStatus() == INDEXED).findFirst()`: the position of the
      first INDEXED site. */
  function FirstIndexed(sites: seq<SiteRow>): (r: Option<nat>)
    ensures r.Some? ==> r.value < |sites| && sites[r.value].status == Indexed
    ensures r.Some? ==> forall j | 0 <= j < r.value :: sites[j].status != Indexed
    ensures r.None? ==> forall j | 0 <= j < |sites| :: sites[j].status != Indexed
  {
    if sites == [] then None
    else if sites[0].status == Indexed then Some(0)
    else match FirstIndexed(sites[1..])
      case None => None
      case Some(j) => Some(j + 1)
  }

  /** `...findFirst().orElse(sites.get(0))` on the non-empty list of sites
      with the base url. */
  function ChooseSite(sites: seq<SiteRow>): (r: SiteRow)
    requires sites != []
    ensures r in sites
    ensures r.status == Indexed <==> exists i | 0 <= i < |sites| :: sites[i].status == Indexed
    ensures r.status != Indexed ==> r == sites[0]
    ensures r.status == Indexed ==>
      exists i | 0 <= i < |sites| :: r == sites[i] && forall j | 0 <= j < i :: sites[j].status != Indexed
  {
    match FirstIndexed(sites)
    case Some(i) => sites[i]
    case None => sites[0]
  }

  function SiteUrlMissingMessage(baseUrl: string): string {
    "Site with URL " + baseUrl + " not found"
  }

  /** The page row `indexPage` saves: the url as path, the raw html, code 200,
      the chosen site and the title. */
  function NewPage(url: string, doc: Document, siteId: nat): PageRow {
    PageRow(0, Some(siteId), url, 200, doc.html, Some(PageTitle(doc.title)))
  }

  /** `indexPage(url)`. `fetched` is the document the connection service (or
      Jsoup after it) returned, or the IOException; `clean` is the HTML
      cleaner; `parse` is java.net.URL. */
  function IndexPageSpec(db: Db, url: string, fetched: Result<Document>, clean: string -> string,
                         parse: string -> Option<Url>): Outcome<()>
  {
    if fetched.Err? then Outcome(db, Err(fetched.error))
    else
      var baseUrl := SearchService.ExtractBaseUrl(parse, url);
      var sites := SitesWithUrl(db.sites, baseUrl);
      if sites == [] then Outcome(db, Err(Exception(EntityNotFound, SiteUrlMissingMessage(baseUrl))))
      else
        var site := ChooseSite(sites);
        var page := PageSave(db, NewPage(url, fetched.value, site.id));
        var o := ProcessLemmasSpec(page.db, page.id, clean(fetched.value.html), site.id);
        if o.result.Ok? then o else Outcome(RolledBack(o.db, db), o.result)
  }

  /** A site picked from the table is found again by its id. */
  lemma ChosenSiteIsStored(db: Db, baseUrl: string)
    requires db.Valid() && SitesWithUrl(db.sites, baseUrl) != []
    ensures SiteById(db.sites, ChooseSite(SitesWithUrl(db.sites, baseUrl)).id).Some?
  {
    var site := ChooseSite(SitesWithUrl(db.sites, baseUrl));
    var i :| 0 <= i < |db.sites| && db.sites[i] == site;
  }

  /** Saving the new page keeps the site table and the keys valid. */
  lemma NewPageSaved(db: Db, row: PageRow)
    requires db.Valid() && row.id == 0
    ensures PageSave(db, row).db.Valid() && PageSave(db, row).db.sites == db.sites
    ensures PageSave(db, row).id == db.nextPageId
    ensures PageSave(db, row).db.pages == db.pages + [row.(id := db.nextPageId)]
    ensures PageSave(db, row).db.index == db.index && PageSave(db, row).db.lemmas == db.lemmas
  {
    PageSaveSpec(db, row);
  }

  /** On a valid database `indexPage` fails exactly when the fetch failed or no
      site has the page's base url, and then nothing is written. */
  lemma IndexPageFails(db: Db, url: string, fetched: Result<Document>, clean: string -> string, parse: string -> Option<Url>)
    requires db.Valid()
    ensures IndexPageSpec(db, url, fetched, clean, parse).result.Err? <==>
      fetched.Err? || SitesWithUrl(db.sites, SearchService.ExtractBaseUrl(parse, url)) == []
    ensures IndexPageSpec(db, url, fetched, clean, parse).result.Err? ==>
      IndexPageSpec(db, url, fetched, clean, parse).db == db
    ensures fetched.Ok? && SitesWithUrl(db.sites, SearchService.ExtractBaseUrl(parse, url)) == [] ==>
      IndexPageSpec(db, url, fetched, clean, parse).result.error ==
        Exception(EntityNotFound, SiteUrlMissingMessage(SearchService.ExtractBaseUrl(parse, url)))
  {
    var baseUrl := SearchService.ExtractBaseUrl(parse, url);
    if fetched.Ok? && SitesWithUrl(db.sites, baseUrl) != [] {
      var site := ChooseSite(SitesWithUrl(db.sites, baseUrl));
      ChosenSiteIsStored(db, baseUrl);
      var row := NewPage(url, fetched.value, site.id);
      NewPageSaved(db, row);
      var page := PageSave(db, row);
      ProcessLemmasSucceeds(page.db, page.id, clean(fetched.value.html), site.id);
    }
  }

  /** The site `indexPage` stores the page under. */
  function TargetSite(db: Db, url: string, parse: string -> Option<Url>): SiteRow
    requires SitesWithUrl(db.sites, SearchService.ExtractBaseUrl(parse, url)) != []
  {
    ChooseSite(SitesWithUrl(db.sites, SearchService.ExtractBaseUrl(parse, url)))
  }

  /** Past the fetch and the site lookup, `indexPage` is processLemmas run on
      the table with the new page saved. */
  lemma IndexPageProcesses(db: Db, url: string, fetched: Result<Document>, clean: string -> string, parse: string -> Option<Url>)
    requires db.Valid() && fetched.Ok?
    requires SitesWithUrl(db.sites, SearchService.ExtractBaseUrl(parse, url)) != []
    ensures IndexPageSpec(db, url, fetched, clean, parse) ==
      ProcessLemmasSpec(PageSave(db, NewPage(url, fetched.value, TargetSite(db, url, parse).id)).db, db.nextPageId,
                        clean(fetched.value.html), TargetSite(db, url, parse).id)
  {
    var row := NewPage(url, fetched.value, TargetSite(db, url, parse).id);
    ChosenSiteIsStored(db, SearchService.ExtractBaseUrl(parse, url));
    NewPageSaved(db, row);
    ProcessLemmasSucceeds(PageSave(db, row).db, db.nextPageId, clean(fetched.value.html), TargetSite(db, url, parse).id);
  }

  /** On success `indexPage` appends exactly one page row: the url, the html,
      code 200, the title or its default, and the chosen site; the sites are
      untouched. */
  lemma IndexPageStoresPage(db: Db, url: string, fetched: Result<Document>, clean: string -> string, parse: string -> Option<Url>)
    requires db.Valid() && fetched.Ok?
    requires SitesWithUrl(db.sites, SearchService.ExtractBaseUrl(parse, url)) != []
    ensures IndexPageSpec(db, url, fetched, clean, parse).result.Ok?
    ensures IndexPageSpec(db, url, fetched, clean, parse).db.Valid()
    ensures IndexPageSpec(db, url, fetched, clean, parse).db.sites == db.sites
    ensures IndexPageSpec(db, url, fetched, clean, parse).db.pages ==
      db.pages + [PageRow(db.nextPageId, Some(TargetSite(db, url, parse).id), url, 200, fetched.value.html,
                          Some(PageTitle(fetched.value.title)))]
  {
    IndexPageProcesses(db, url, fetched, clean, parse);
    var row := NewPage(url, fetched.value, TargetSite(db, url, parse).id);
    ChosenSiteIsStored(db, SearchService.ExtractBaseUrl(parse, url));
    NewPageSaved(db, row);
    ProcessLemmasSucceeds(PageSave(db, row).db, db.nextPageId, clean(fetched.value.html), TargetSite(db, url, parse).id);
  }

  /** On success the idx rows `indexPage` appends belong to the new page: one
      per distinct lemma of the cleaned text, in first-occurrence order, its
      rank the number of times the lemma occurs, idx 1. */
  lemma IndexPageIndexes(db: Db, url: string, fetched: Result<Document>, clean: string -> string, parse: string -> Option<Url>)
    requires db.Valid() && fetched.Ok?
    requires SitesWithUrl(db.sites, SearchService.ExtractBaseUrl(parse, url)) != []
    ensures IndexedBatch(db.index, IndexPageSpec(db, url, fetched, clean, parse).db, db.nextPageId,
                         AcceptedLemmas(clean(fetched.value.html)), Some(1))
  {
    IndexPageProcesses(db, url, fetched, clean, parse);
    var site := TargetSite(db, url, parse);
    ChosenSiteIsStored(db, SearchService.ExtractBaseUrl(parse, url));
    NewPageSaved(db, NewPage(url, fetched.value, site.id));
    ProcessLemmasIndexes(PageSave(db, NewPage(url, fetched.value, site.id)).db, db.nextPageId, clean(fetched.value.html), site.id);
  }

  /** Whatever happens, `indexPage` leaves the site table alone and the keys
      valid. */
  lemma IndexPageKeepsSites(db: Db, url: string, fetched: Result<Document>, clean: string -> string, parse: string -> Option<Url>)
    requires db.Valid()
    ensures IndexPageSpec(db, url, fetched, clean, parse).db.Valid()
    ensures IndexPageSpec(db, url, fetched, clean, parse).db.sites == db.sites
  {
    IndexPageFails(db, url, fetched, clean, parse);
    if fetched.Ok? && SitesWithUrl(db.sites, SearchService.ExtractBaseUrl(parse, url)) != [] {
      IndexPageStoresPage(db, url, fetched, clean, parse);
    }
  }

  /** `indexPage(url)` on the database. */
  method IndexPage(db: Database, url: string, fetched: Result<Document>, clean: string -> string, parse: string -> Option<Url>)
    returns (r: Result<()>)
    modifies db
    ensures Outcome(db.Value(), r) == IndexPageSpec(old(db.Value()), url, fetched, clean, parse)
  {
    if fetched.Err? {
      return Err(fetched.error);
    }
    var doc := fetched.value;
    var baseUrl := SearchService.ExtractBaseUrl(parse, url);
    var sites := SitesWithUrl(db.sites, baseUrl);
    if sites == [] {
      return Err(Exception(EntityNotFound, SiteUrlMissingMessage(baseUrl)));
    }
    var site := ChooseSite(sites);
    var before := db.Value();
    var pageId := db.SavePage(NewPage(url, doc, site.id));
    r := ProcessLemmas(db, pageId, clean(doc.html), site);
    if r.Err? {
      db.Rollback(before);
    }
  }

  // ---------------------------------------------------------------------------
  // indexPageManually

  /** `word.toLowerCase()` for each word of a list. */
  function Lowered(words: seq<string>): (r: seq<string>)
    ensures |r| == |words|
    ensures forall i | 0 <= i < |r| :: |r[i]| == |words[i]|
  {
    seq(|words|, i requires 0 <= i < |words| => ToLower(words[i]))
  }

  /** The words `indexPageManually` counts: every piece of `split("\\W+")`,
      lowercased, with no length or letter filter. */
  function ManualTokens(text: string): (r: seq<string>)
    ensures |r| == |Split(text, NonWord)|
    ensures forall i | 0 <= i < |r| :: forall j | 0 <= j < |r[i]| :: IsWordChar(r[i][j]) && !IsAsciiUpper(r[i][j])
  {
    var words := Split(text, NonWord);
    SplitPieces(text, NonWord);
    assert forall i, j | 0 <= i < |words| && 0 <= j < |words[i]| :: words[i] in words && words[i][j] in words[i];
    Lowered(words)
  }

  /** Every piece is counted: the counts add up to the number of pieces. */
  lemma ManualCountsEveryPiece(text: string)
    ensures Total(Distinct(ManualTokens(text)), Tally(ManualTokens(text))) == |Split(text, NonWord)|
  {
    CountsSumToAccepted(ManualTokens(text));
  }

  /** A text that starts with a separator (and is not all separators) yields a
      counted empty token. */
  lemma ManualCountsLeadingEmpty(text: string)
    requires |text| > 0 && !IsWordChar(text[0]) && !AllSeparators(text, NonWord)
    ensures "" in Tally(ManualTokens(text)) && Tally(ManualTokens(text))[""] >= 1
  {
    SplitLeadingSeparator(text, NonWord);
    var tokens := ManualTokens(text);
    assert tokens[0] == ToLower("") == "";
    TallySpec(tokens);
  }

  /** The first loop: counts every lowercased word into `counts`, whose keys
      `order` lists in the order they were first put. */
  method CountTokens(words: seq<string>) returns (order: seq<string>, counts: map<string, nat>)
    ensures order == Distinct(Lowered(words))
    ensures counts == Tally(Lowered(words))
  {
    order, counts := [], map[];
    for i := 0 to |words|
      invariant order == Distinct(Lowered(words[..i]))
      invariant counts == Tally(Lowered(words[..i]))
    {
      var lemmaText := ToLower(words[i]);
      assert Lowered(words[..i + 1]) == Lowered(words[..i]) + [lemmaText];
      CountOneMore(Lowered(words[..i]), lemmaText);
      if lemmaText !in order {
        order := order + [lemmaText];
      }
      counts := counts[lemmaText := Get(counts, lemmaText) + 1];
    }
    assert words[..|words|] == words;
  }

  const SiteOneMissingMessage: string := "Site with id 1 not found"

  /** The lemma step of the second loop: the row found by text alone gets
      frequency + 1; a missing one is created with frequency 1 for the site
      with id 1, whose absence throws EntityNotFoundException. */
  function ManualLemmaSpec(db: Db, text: string): Outcome<LemmaRow> {
    match LemmaWithText(db.lemmas, text)
    case Some(found) =>
      var row := found.(frequency := found.frequency + 1);
      var w := LemmaSave(db, row);
      Outcome(w.db, Ok(row.(id := w.id)))
    case None =>
      match SiteById(db.sites, 1)
      case None => Outcome(db, Err(Exception(EntityNotFound, SiteOneMissingMessage)))
      case Some(s) =>
        var row := LemmaRow(0, db.sites[s].id, text, 1);
        var w := LemmaSave(db, row);
        Outcome(w.db, Ok(row.(id := w.id)))
  }

  /** The lemma step of the second loop on the database. */
  method SaveManualLemma(db: Database, text: string) returns (r: Result<LemmaRow>)
    modifies db
    ensures Outcome(db.Value(), r) == ManualLemmaSpec(old(db.Value()), text)
  {
    var found := LemmaWithText(db.lemmas, text);
    var row: LemmaRow;
    if found.None? {
      var s := SiteById(db.sites, 1);
      if s.None? {
        return Err(Exception(EntityNotFound, SiteOneMissingMessage));
      }
      row := LemmaRow(0, db.sites[s.value].id, text, 1);
    } else {
      row := found.value.(frequency := found.value.frequency + 1);
    }
    var id := db.SaveLemma(row);
    r := Ok(row.(id := id));
  }

  /** With site 1 present the manual lemma step does what `saveLemma(text, 1)`
      does. */
  lemma ManualLemmaIsSaveLemma(db: Db, text: string)
    requires SiteById(db.sites, 1).Some?
    ensures ManualLemmaSpec(db, text) == SaveLemmaSpec(db, text, 1)
  {
  }

  /** The manual lemma step fails exactly when the text has no row and site 1
      is missing; it then writes nothing. */
  lemma ManualLemmaFails(db: Db, text: string)
    ensures ManualLemmaSpec(db, text).result.Err? <==>
      LemmaWithText(db.lemmas, text).None? && SiteById(db.sites, 1).None?
    ensures ManualLemmaSpec(db, text).result.Err? ==>
      ManualLemmaSpec(db, text).db == db &&
      ManualLemmaSpec(db, text).result.error == Exception(EntityNotFound, SiteOneMissingMessage)
  {
  }

  /** An existing row is updated in place whether or not site 1 exists. */
  lemma ManualLemmaIncrements(db: Db, text: string)
    requires db.Valid() && LemmaByText(db.lemmas, text).Some?
    ensures var p := LemmaByText(db.lemmas, text).value;
      var row := db.lemmas[p].(frequency := db.lemmas[p].frequency + 1);
      ManualLemmaSpec(db, text).result == Ok(row) &&
      ManualLemmaSpec(db, text).db == db.(lemmas := db.lemmas[p := row]) &&
      ManualLemmaSpec(db, text).db.Valid()
  {
    var p := LemmaByText(db.lemmas, text).value;
    var row := db.lemmas[p].(frequency := db.lemmas[p].frequency + 1);
    LemmaByIdAt(db.lemmas, db.nextLemmaId, p);
    LemmaSaveSpec(db, row);
  }

  /** With site 1 present or the text already stored, the step upserts: the
      lookup by text finds the returned row, its frequency one more than
      before, created for site 1 with frequency 1 when no row had the text;
      other texts find what they found before. */
  lemma ManualLemmaUpserts(db: Db, text: string)
    requires db.Valid() && (SiteById(db.sites, 1).Some? || LemmaWithText(db.lemmas, text).Some?)
    ensures ManualLemmaSpec(db, text).result.Ok?
    ensures ManualLemmaSpec(db, text).db.Valid()
    ensures LemmaWithText(ManualLemmaSpec(db, text).db.lemmas, text) == Some(ManualLemmaSpec(db, text).result.value)
    ensures ManualLemmaSpec(db, text).result.value.frequency == Frequency(db.lemmas, text) + 1
    ensures LemmaWithText(db.lemmas, text).None? ==>
      ManualLemmaSpec(db, text).result.value.siteId == 1 && ManualLemmaSpec(db, text).result.value.frequency == 1
    ensures forall t | t != text :: LemmaWithText(ManualLemmaSpec(db, text).db.lemmas, t) == LemmaWithText(db.lemmas, t)
  {
    if SiteById(db.sites, 1).Some? {
      ManualLemmaIsSaveLemma(db, text);
      SaveLemmaUpserts(db, text, 1);
    } else {
      ManualLemmaIncrements(db, text);
      var p := LemmaByText(db.lemmas, text).value;
      var o := ManualLemmaSpec(db, text);
      LemmaByTextSameTexts(o.db.lemmas, db.lemmas);
    }
  }

  /** One pass of the second loop: the lemma step, then an idx row for the
      page with the count as rank and idx left unset. */
  function ManualEntry(db: Db, columns: Columns, pageId: nat, text: string, count: nat): Outcome<()> {
    var saved := ManualLemmaSpec(db, text);
    if saved.result.Err? then Outcome(saved.db, Err(saved.result.error))
    else
      var x := IndexInsert(saved.db, columns, IndexRow(0, pageId, saved.result.value.id, text, count, None));
      if x.result.Err? then Outcome(x.db, Err(x.result.error)) else Outcome(x.db, Ok(()))
  }

  /** The second loop from the entry `order[0]` on; the first failure ends it. */
  function ManualEntries(db: Db, columns: Columns, pageId: nat, order: seq<string>, counts: map<string, nat>): Outcome<()>
    decreases |order|
  {
    if order == [] then Outcome(db, Ok(()))
    else
      var e := ManualEntry(db, columns, pageId, order[0], Get(counts, order[0]));
      if e.result.Err? then e else ManualEntries(e.db, columns, pageId, order[1..], counts)
  }

  /** As written, the first pass of the loop always fails: its idx row has no
      idx, which the NOT NULL column refuses, unless the lemma step failed
      before it. */
  lemma ManualEntriesRefusedAsWritten(db: Db, pageId: nat, order: seq<string>, counts: map<string, nat>)
    requires order != []
    ensures ManualEntries(db, NotNullEnforced, pageId, order, counts).result.Err?
    ensures ManualEntries(db, NotNullEnforced, pageId, order, counts).result.error ==
      if LemmaWithText(db.lemmas, order[0]).None? && SiteById(db.sites, 1).None?
      then Exception(EntityNotFound, SiteOneMissingMessage)
      else NotNullViolation("idx")
  {
    ManualLemmaFails(db, order[0]);
  }

  /** On a schema that accepts the nulls and with site 1 present, the manual
      loop is processLemmas' loop for site 1, except that idx stays unset. */
  lemma {:induction false} ManualEntriesAreSaveEntries(db: Db, pageId: nat, order: seq<string>, counts: map<string, nat>)
    requires db.Valid() && SiteById(db.sites, 1).Some?
    ensures ManualEntries(db, NullsAccepted, pageId, order, counts) == SaveEntries(db, pageId, 1, order, counts, None)
    decreases |order|
  {
    if order != [] {
      ManualLemmaIsSaveLemma(db, order[0]);
      var e := ManualEntry(db, NullsAccepted, pageId, order[0], Get(counts, order[0]));
      assert e == SaveEntry(db, pageId, 1, order[0], Get(counts, order[0]), None);
      SaveEntryWrites(db, pageId, 1, order[0], Get(counts, order[0]), None);
      ManualEntriesAreSaveEntries(e.db, pageId, order[1..], counts);
    }
  }

  /** On a schema that accepts the nulls and with site 1 missing, a pass over
      a stored text still succeeds, keeps the keys valid and keeps every row's
      text where it was. */
  lemma ManualEntryIncrements(db: Db, pageId: nat, text: string, count: nat)
    requires db.Valid() && LemmaWithText(db.lemmas, text).Some?
    ensures ManualEntry(db, NullsAccepted, pageId, text, count).result.Ok?
    ensures ManualEntry(db, NullsAccepted, pageId, text, count).db.Valid()
    ensures ManualEntry(db, NullsAccepted, pageId, text, count).db.sites == db.sites
    ensures forall t :: LemmaWithText(ManualEntry(db, NullsAccepted, pageId, text, count).db.lemmas, t).None? <==>
      LemmaWithText(db.lemmas, t).None?
  {
    ManualLemmaIncrements(db, text);
    var saved := ManualLemmaSpec(db, text);
    IndexSaveSpec(saved.db, IndexRow(0, pageId, saved.result.value.id, text, 0, None));
    IndexSaveSpec(saved.db, IndexRow(0, pageId, saved.result.value.id, text, count, None));
    LemmaByTextSameTexts(saved.db.lemmas, db.lemmas);
  }

  /** On a schema that accepts the nulls and with site 1 missing, the loop
      fails exactly when some word has no lemma row, with
      EntityNotFoundException. */
  lemma {:induction false} ManualEntriesWithoutSiteOne(db: Db, pageId: nat, order: seq<string>, counts: map<string, nat>)
    requires db.Valid() && SiteById(db.sites, 1).None?
    ensures ManualEntries(db, NullsAccepted, pageId, order, counts).result.Err? <==>
      exists l | l in order :: LemmaWithText(db.lemmas, l).None?
    ensures ManualEntries(db, NullsAccepted, pageId, order, counts).result.Err? ==>
      ManualEntries(db, NullsAccepted, pageId, order, counts).result.error == Exception(EntityNotFound, SiteOneMissingMessage)
    decreases |order|
  {
    if order != [] {
      var x := order[0];
      if LemmaWithText(db.lemmas, x).None? {
        ManualLemmaFails(db, x);
        assert x in order;
      } else {
        ManualEntryIncrements(db, pageId, x, Get(counts, x));
        var e := ManualEntry(db, NullsAccepted, pageId, x, Get(counts, x));
        ManualEntriesWithoutSiteOne(e.db, pageId, order[1..], counts);
        assert ManualEntries(db, NullsAccepted, pageId, order, counts) == ManualEntries(e.db, NullsAccepted, pageId, order[1..], counts);
        assert forall l | l in order :: l == x || l in order[1..];
      }
    }
  }

  /** The page row `indexPageManually` saves: the url as path and the raw html;
      no site, no title, and the code left at 0. */
  function ManualPage(url: string, html: string): PageRow {
    PageRow(0, None, url, 0, html, None)
  }

  /** `indexPageManually(url)`: the page is saved with `saveAndFlush`, then
      every distinct word is upserted and indexed; the class is transactional,
      so a failure rolls every table back. */
  function IndexPageManuallySpec(db: Db, columns: Columns, url: string, fetched: Result<Document>, clean: string -> string): Outcome<()> {
    if fetched.Err? then Outcome(db, Err(fetched.error))
    else
      var page := PageInsert(db, columns, ManualPage(url, fetched.value.html));
      if page.result.Err? then Outcome(page.db, Err(page.result.error))
      else
        var tokens := ManualTokens(clean(fetched.value.html));
        var o := ManualEntries(page.db, columns, page.result.value, Distinct(tokens), Tally(tokens));
        if o.result.Ok? then o else Outcome(RolledBack(o.db, db), o.result)
  }

  /** As written no fetched page is ever indexed: the page row has no site,
      the NOT NULL `siteid` column refuses it at `saveAndFlush`, and the call
      throws with every table as it was. */
  lemma IndexPageManuallyRejectsEveryPage(db: Db, url: string, fetched: Result<Document>, clean: string -> string)
    requires fetched.Ok?
    ensures IndexPageManuallySpec(db, NotNullEnforced, url, fetched, clean) == Outcome(db, Err(NotNullViolation("siteid")))
  {
  }

  /** On a valid database `indexPageManually` fails exactly when the fetch
      failed, when the NOT NULL columns are enforced, or when site 1 is missing
      and some word of the text has no lemma row; a failure leaves every table
      as it was. */
  lemma IndexPageManuallyFails(db: Db, columns: Columns, url: string, fetched: Result<Document>, clean: string -> string)
    requires db.Valid()
    ensures IndexPageManuallySpec(db, columns, url, fetched, clean).result.Err? <==>
      fetched.Err? || columns == NotNullEnforced ||
      (SiteById(db.sites, 1).None? &&
       exists l | l in ManualTokens(clean(fetched.value.html)) :: LemmaWithText(db.lemmas, l).None?)
    ensures IndexPageManuallySpec(db, columns, url, fetched, clean).result.Err? ==>
      IndexPageManuallySpec(db, columns, url, fetched, clean).db.sites == db.sites &&
      IndexPageManuallySpec(db, columns, url, fetched, clean).db.pages == db.pages &&
      IndexPageManuallySpec(db, columns, url, fetched, clean).db.lemmas == db.lemmas &&
      IndexPageManuallySpec(db, columns, url, fetched, clean).db.index == db.index
    ensures fetched.Ok? && IndexPageManuallySpec(db, columns, url, fetched, clean).result.Err? ==>
      IndexPageManuallySpec(db, columns, url, fetched, clean).result.error ==
        if columns == NotNullEnforced then NotNullViolation("siteid")
        else Exception(EntityNotFound, SiteOneMissingMessage)
  {
    if fetched.Ok? && columns == NullsAccepted {
      var row := ManualPage(url, fetched.value.html);
      NewPageSaved(db, row);
      var page := PageSave(db, row);
      var tokens := ManualTokens(clean(fetched.value.html));
      DistinctSpec(tokens);
      if SiteById(db.sites, 1).Some? {
        ManualEntriesAreSaveEntries(page.db, page.id, Distinct(tokens), Tally(tokens));
        SaveEntriesOutcome(page.db, page.id, 1, Distinct(tokens), Tally(tokens), None);
      } else {
        ManualEntriesWithoutSiteOne(page.db, page.id, Distinct(tokens), Tally(tokens));
      }
    }
  }

  /** On a schema that accepts the nulls and with site 1 present,
      `indexPageManually` appends one page row without a site, raises the
      frequency of each word of the text by one, and appends one idx row per
      distinct word, in first-occurrence order, its rank the number of times
      the word occurs and idx unset. */
  lemma IndexPageManuallyWrites(db: Db, url: string, fetched: Result<Document>, clean: string -> string)
    requires db.Valid() && fetched.Ok? && SiteById(db.sites, 1).Some?
    ensures IndexPageManuallySpec(db, NullsAccepted, url, fetched, clean).result.Ok?
    ensures IndexPageManuallySpec(db, NullsAccepted, url, fetched, clean).db.pages ==
      db.pages + [ManualPage(url, fetched.value.html).(id := db.nextPageId)]
    ensures forall l | l in ManualTokens(clean(fetched.value.html)) ::
      Frequency(IndexPageManuallySpec(db, NullsAccepted, url, fetched, clean).db.lemmas, l) == Frequency(db.lemmas, l) + 1
    ensures IndexedBatch(db.index, IndexPageManuallySpec(db, NullsAccepted, url, fetched, clean).db, db.nextPageId,
                         ManualTokens(clean(fetched.value.html)), None)
  {
    var row := ManualPage(url, fetched.value.html);
    NewPageSaved(db, row);
    var page := PageSave(db, row);
    var tokens := ManualTokens(clean(fetched.value.html));
    DistinctSpec(tokens);
    ManualEntriesAreSaveEntries(page.db, page.id, Distinct(tokens), Tally(tokens));
    SaveEntriesLemmas(page.db, page.id, 1, Distinct(tokens), Tally(tokens), None);
    SaveEntriesIndex(page.db, page.id, 1, Distinct(tokens), Tally(tokens), None);
    var o := SaveEntries(page.db, page.id, 1, Distinct(tokens), Tally(tokens), None);
    assert IndexPageManuallySpec(db, NullsAccepted, url, fetched, clean) == o;
    RanksAreOccurrences(o.db.index, |db.index|, page.id, tokens, None, o.db.lemmas);
  }

  /** `indexPageManually(url)` on the database. */
  method IndexPageManually(db: Database, columns: Columns, url: string, fetched: Result<Document>, clean: string -> string)
    returns (r: Result<()>)
    modifies db
    ensures Outcome(db.Value(), r) == IndexPageManuallySpec(old(db.Value()), columns, url, fetched, clean)
  {
    if fetched.Err? {
      return Err(fetched.error);
    }
    var html := fetched.value.html;
    var before := db.Value();
    var page := db.InsertPage(columns, ManualPage(url, html));
    if page.Err? {
      return Err(page.error);
    }
    var pageId := page.value;
    var words := Split(clean(html), NonWord);
    var order, counts := CountTokens(words);
    ghost var start := db.Value();
    var k := 0;
    while k < |order|
      invariant 0 <= k <= |order|
      invariant ManualEntries(db.Value(), columns, pageId, order[k..], counts) == ManualEntries(start, columns, pageId, order, counts)
    {
      assert order[k..][1..] == order[k + 1..];
      var saved := SaveManualLemma(db, order[k]);
      if saved.Err? {
        db.Rollback(before);
        return Err(saved.error);
      }
      var indexed := db.InsertIndex(columns, IndexRow(0, pageId, saved.value.id, order[k], Get(counts, order[k]), None));
      // The page without a site was accepted, so the columns accept nulls and
      // this idx row without idx is accepted too.
      assert indexed.Ok?;
      k := k + 1;
    }
    r := Ok(());
  }
}
