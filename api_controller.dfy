/** ApiController: the REST entry points. Modelled here are the single-flight
    guard around indexing, the validation of a search request, and the small
    helpers `extractLemmas`, `isValidUrl` and `modifyAndSaveSites`. */
module ApiController {
  import opened Common
  import opened Text
  import opened Store
  import SiteService
  import PageService
  import SearchService

  /** A ResponseEntity whose body is `{"result": result, "message"|"error": text}`. */
  datatype Response = Response(code: nat, result: bool, text: string)

  function Accepted(message: string): Response { Response(200, true, message) }

  function BadRequest(error: string): Response { Response(400, false, error) }

  const EmptyQueryError: string := "Поисковый запрос не может быть пустым"
  const SiteNotIndexedError: string := "Сайт не проиндексирован"
  const AlreadyRunningError: string := "Индексация уже выполняется"
  const StartedMessage: string := "Индексация запущена"

  // ---------------------------------------------------------------------------
  // search: the request checks made before searching

  /** The answer `search` gives before it searches, or None when the request
      passes both checks. `site` is None when the parameter is absent. */
  function ValidateSearch(query: Option<string>, site: Option<string>, sites: seq<SiteRow>): (r: Option<Response>)
    ensures r == Some(BadRequest(EmptyQueryError)) <==> query.None? || IsBlank(query.value)
    ensures r == Some(BadRequest(SiteNotIndexedError)) <==>
      query.Some? && !IsBlank(query.value) && site.Some? && !SiteService.IsSiteIndexed(sites, site)
    ensures r.None? <==>
      query.Some? && !IsBlank(query.value) && (site.None? || SiteService.IsSiteIndexed(sites, site))
  {
    assert EmptyQueryError[0] != SiteNotIndexedError[0];
    if query.None? || IsBlank(query.value) then Some(BadRequest(EmptyQueryError))
    else if site.Some? && !SiteService.IsSiteIndexed(sites, site) then Some(BadRequest(SiteNotIndexedError))
    else None
  }

  /** The query check comes first: a blank query is refused whatever the site,
      even one that does not exist. */
  lemma BlankQueryRefusedBeforeSiteCheck(query: string, site: Option<string>, sites: seq<SiteRow>)
    requires IsBlank(query)
    ensures ValidateSearch(Some(query), site, sites) == Some(BadRequest(EmptyQueryError))
    ensures ValidateSearch(Some(query), site, sites) == ValidateSearch(Some(query), site, [])
  {
  }

  /** A request naming a site passes only when a row with that url is
      INDEXED; without a site the indexing state is not consulted. */
  lemma SearchNeedsIndexedSite(query: string, url: string, sites: seq<SiteRow>)
    requires !IsBlank(query) && url != ""
    ensures ValidateSearch(Some(query), Some(url), sites).None? <==>
      exists i | 0 <= i < |sites| :: sites[i].url == url && sites[i].status == Indexed
    ensures ValidateSearch(Some(query), None, sites).None?
  {
  }

  // ---------------------------------------------------------------------------
  // The isIndexingInProgress flag

  /** The flag after an event, and the answer given to a request. */
  datatype Flagged = Flagged(inProgress: bool, response: Response)

  /** `startIndexing()`: refused while the flag is set; otherwise the flag is
      set, the background task is handed off and the request is accepted. */
  function StartIndexingSpec(inProgress: bool): (r: Flagged)
    ensures r.inProgress
    ensures r.response.result <==> !inProgress
    ensures inProgress ==> r.response == BadRequest(AlreadyRunningError)
    ensures !inProgress ==> r.response == Accepted(StartedMessage)
  {
    if inProgress then Flagged(true, BadRequest(AlreadyRunningError))
    else Flagged(true, Accepted(StartedMessage))
  }

  /** What can happen to the flag: a request to `startIndexing`, the end of the
      background task it started (normal or not), or `stopIndexingService`. */
  datatype Event = StartRequest | TaskEnded | StopRequested

  function Apply(inProgress: bool, e: Event): bool {
    match e
    case StartRequest => StartIndexingSpec(inProgress).inProgress
    case TaskEnded => false
    case StopRequested => false
  }

  function After(inProgress: bool, events: seq<Event>): bool
    decreases |events|
  {
    if events == [] then inProgress else After(Apply(inProgress, events[0]), events[1..])
  }

  /** How many events end or stop the background indexing. */
  function Ends(events: seq<Event>): nat
    decreases |events|
  {
    if events == [] then 0
    else (if events[0] == StartRequest then 0 else 1) + Ends(events[1..])
  }

  /** How many `startIndexing` requests in `events` are accepted. Single
      flight: every accepted start but the first (or every one, when indexing
      is already running) needs an end or a stop before it, so there are at
      most as many as the ends and stops, plus one when the flag starts
      clear. */
  function AcceptedStarts(inProgress: bool, events: seq<Event>): (n: nat)
    ensures n <= |events|
    ensures n <= (if inProgress then 0 else 1) + Ends(events)
    decreases |events|
  {
    if events == [] then 0
    else
      var here := if events[0] == StartRequest && !inProgress then 1 else 0;
      here + AcceptedStarts(Apply(inProgress, events[0]), events[1..])
  }

  /** Single flight: with no end of the background indexing and no stop in
      between, at most one start is accepted, and none while indexing is
      already running. */
  lemma {:induction false} AtMostOneRunningTask(inProgress: bool, events: seq<Event>)
    requires forall i | 0 <= i < |events| :: events[i] == StartRequest
    ensures AcceptedStarts(inProgress, events) <= 1
    ensures inProgress ==> AcceptedStarts(inProgress, events) == 0
    ensures events != [] ==> After(inProgress, events)
    decreases |events|
  {
    if events != [] {
      AtMostOneRunningTask(true, events[1..]);
    }
  }

  /** Once the background indexing has ended, or indexing was stopped, a new start is
      accepted. */
  lemma StartAcceptedAfterTaskEnds(inProgress: bool, e: Event)
    requires e == TaskEnded || e == StopRequested
    ensures AcceptedStarts(inProgress, [e, StartRequest]) == 1
    ensures StartIndexingSpec(Apply(inProgress, e)).response == Accepted(StartedMessage)
  {
    assert [e, StartRequest][1..] == [StartRequest];
  }

  /** The controller instance: Spring keeps one, so its flag is shared by every
      request. */
  class Controller {
    var isIndexingInProgress: bool

    constructor ()
      ensures !isIndexingInProgress
    {
      isIndexingInProgress := false;
    }

    /** `startIndexing()`. The background task is started by the caller, which
        reports its end through `IndexingTaskEnded`. */
    method StartIndexing() returns (response: Response)
      modifies this
      ensures Flagged(isIndexingInProgress, response) == StartIndexingSpec(old(isIndexingInProgress))
    {
      if isIndexingInProgress {
        return BadRequest(AlreadyRunningError);
      }
      isIndexingInProgress := true;
      response := Accepted(StartedMessage);
    }

    /** The `finally` of the background task: the flag is cleared whether the
        indexing returned normally or threw. */
    method IndexingTaskEnded(outcome: Result<()>)
      modifies this
      ensures isIndexingInProgress == Apply(old(isIndexingInProgress), TaskEnded)
    {
      isIndexingInProgress := false;
    }

    /** `stopIndexingService()`: clears the flag and does nothing else. */
    method StopIndexingService()
      modifies this
      ensures isIndexingInProgress == Apply(old(isIndexingInProgress), StopRequested)
    {
      isIndexingInProgress := false;
    }
  }

  // ---------------------------------------------------------------------------
  // extractLemmas, isValidUrl

  /** `filter(word -> word.length() > 2)`. */
  function LongWords(words: seq<string>): (r: seq<string>)
    ensures forall w :: w in r <==> w in words && |w| > 2
    ensures NoDuplicates(words) ==> NoDuplicates(r)
    decreases |words|
  {
    if words == [] then []
    else
      var rest := LongWords(words[1..]);
      assert forall w :: w in words[1..] ==> w in words;
      if |words[0]| > 2 then
        assert NoDuplicates(words) ==> words[0] !in words[1..];
        [words[0]] + rest
      else rest
  }

  /** `extractLemmas(query)`: split on whitespace, lowercase, drop repeats,
      keep the words longer than two characters. */
  function ExtractLemmas(query: string): (r: seq<string>)
    ensures NoDuplicates(r)
    ensures forall w :: w in r <==> w in PageService.Lowered(Split(query, Space)) && |w| > 2
  {
    var words := PageService.Lowered(Split(query, Space));
    DistinctSpec(words);
    LongWords(Distinct(words))
  }

  /** Every extracted lemma is a lowercased whitespace-free piece of the
      query, at least three characters long. */
  lemma ExtractedLemmasAreWords(query: string, w: string)
    requires w in ExtractLemmas(query)
    ensures |w| >= 3
    ensures forall j | 0 <= j < |w| :: !IsSpace(w[j]) && !IsAsciiUpper(w[j])
    ensures exists i | 0 <= i < |Split(query, Space)| :: w == ToLower(Split(query, Space)[i])
  {
    var pieces := Split(query, Space);
    var words := PageService.Lowered(pieces);
    var i :| 0 <= i < |words| && words[i] == w;
    SplitPieces(query, Space);
    assert pieces[i] in pieces;
    forall j | 0 <= j < |w|
      ensures !IsSpace(w[j]) && !IsAsciiUpper(w[j])
    {
      assert w[j] == LowerChar(pieces[i][j]);
      assert pieces[i][j] in pieces[i];
    }
  }

  /** `isValidUrl(url)`. */
  function IsValidUrl(url: string): (r: bool)
    ensures r ==> StartsWith(url, "http")
  {
    assert StartsWith(url, "http://") ==> url[..4] == "http://"[..4];
    assert StartsWith(url, "https://") ==> url[..4] == "https://"[..4];
    StartsWith(url, "http://") || StartsWith(url, "https://")
  }

  /** A url the controller accepts as valid is kept as it is when a search
      result's full url is built, whatever the site's url. */
  lemma ValidUrlIsAbsolute(siteUrl: string, url: string)
    requires IsValidUrl(url)
    ensures SearchService.FullUrl(siteUrl, url) == url
  {
  }

  /** Exactly the two schemes pass: a url with any other beginning, such as
      "ftp://" or a bare host, is refused. */
  lemma ValidUrlSchemes(url: string)
    ensures IsValidUrl(url) <==> StartsWith(url, "http://") || StartsWith(url, "https://")
    ensures IsValidUrl("http://" + url) && IsValidUrl("https://" + url)
    ensures !IsValidUrl("ftp://" + url)
  {
    assert ("http://" + url)[..7] == "http://";
    assert ("https://" + url)[..8] == "https://";
    assert ("ftp://" + url)[0] == 'f';
  }

  // ---------------------------------------------------------------------------
  // modifyAndSaveSites

  /** The new Site built for `site`: INDEXING at `now`, url and name copied,
      no id yet. entity/Site.java is not part of this model; its unset
      `lastError` is modelled as "". */
  function Modified(site: SiteRow, now: int): (r: SiteRow)
    ensures r.id == 0 && r.url == site.url && r.name == site.name
    ensures r.status == Indexing && r.statusTime == now && r.lastError == ""
  {
    SiteRow(0, site.url, site.name, Indexing, now, "")
  }

  /** The objects saved one after the other, with the ids they hold after. */
  datatype Saved = Saved(rows: seq<SiteRow>, db: Db)

  function SaveEach(db: Db, objects: seq<SiteRow>): Saved
    decreases |objects|
  {
    if objects == [] then Saved([], db)
    else
      var w := SiteObjectSave(SiteWorld(objects[0], db));
      var rest := SaveEach(w.db, objects[1..]);
      Saved([w.site] + rest.rows, rest.db)
  }

  /** `modifyAndSaveSites(sites)`: the list of new objects, each then saved. */
  function ModifyAndSaveSitesSpec(db: Db, sites: seq<SiteRow>, now: int): Saved {
    SaveEach(db, seq(|sites|, i requires 0 <= i < |sites| => Modified(sites[i], now)))
  }

  /** Saving one object without an id appends it under the next id. */
  lemma SaveNewSite(db: Db, row: SiteRow)
    requires db.Valid() && row.id == 0
    ensures SiteObjectSave(SiteWorld(row, db)).site == row.(id := db.nextSiteId)
    ensures SiteObjectSave(SiteWorld(row, db)).db.sites == db.sites + [row.(id := db.nextSiteId)]
    ensures SiteObjectSave(SiteWorld(row, db)).db.nextSiteId == db.nextSiteId + 1
    ensures SiteObjectSave(SiteWorld(row, db)).db.Valid()
  {
    SiteSaveSpec(db, row);
    assert SiteById(db.sites, 0).None?;
  }

  /** `s` holds `objects` saved into `db` as new rows: in order, under
      consecutive ids, each object taking the id of its row. */
  predicate AppendedAsNew(db: Db, objects: seq<SiteRow>, s: Saved) {
    s.db.Valid() && |s.rows| == |objects| &&
    (forall i | 0 <= i < |objects| :: s.rows[i] == objects[i].(id := db.nextSiteId + i)) &&
    s.db.sites == db.sites + s.rows && s.db.nextSiteId == db.nextSiteId + |objects|
  }

  /** Saving objects without ids one by one appends them as new rows. */
  lemma {:induction false} SaveEachAppends(db: Db, objects: seq<SiteRow>)
    requires db.Valid()
    requires forall i | 0 <= i < |objects| :: objects[i].id == 0
    ensures AppendedAsNew(db, objects, SaveEach(db, objects))
    decreases |objects|
  {
    if objects != [] {
      var w := SiteObjectSave(SiteWorld(objects[0], db));
      SaveNewSite(db, objects[0]);
      SaveEachAppends(w.db, objects[1..]);
      var rest := SaveEach(w.db, objects[1..]);
      var all := SaveEach(db, objects);
      assert all.rows == [w.site] + rest.rows;
      assert db.sites + ([w.site] + rest.rows) == (db.sites + [w.site]) + rest.rows;
      forall i | 0 < i < |objects|
        ensures all.rows[i] == objects[i].(id := db.nextSiteId + i)
      {
        assert all.rows[i] == rest.rows[i - 1];
        assert objects[1..][i - 1] == objects[i];
      }
    }
  }

  /** One new INDEXING site per input site, in order, with url and name
      copied; each is stored as a new row, after the existing ones. */
  lemma ModifyAndSaveSitesAppends(db: Db, sites: seq<SiteRow>, now: int)
    requires db.Valid()
    ensures |ModifyAndSaveSitesSpec(db, sites, now).rows| == |sites|
    ensures forall i | 0 <= i < |sites| ::
      ModifyAndSaveSitesSpec(db, sites, now).rows[i] == Modified(sites[i], now).(id := db.nextSiteId + i)
    ensures ModifyAndSaveSitesSpec(db, sites, now).db.sites == db.sites + ModifyAndSaveSitesSpec(db, sites, now).rows
    ensures ModifyAndSaveSitesSpec(db, sites, now).db.Valid()
  {
    var created := seq(|sites|, i requires 0 <= i < |sites| => Modified(sites[i], now));
    SaveEachAppends(db, created);
    assert AppendedAsNew(db, created, ModifyAndSaveSitesSpec(db, sites, now));
  }

  lemma SaveEachUnfolds(db: Db, objects: seq<SiteRow>, i: nat, w: SiteWorld)
    requires i < |objects| && w == SiteObjectSave(SiteWorld(objects[i], db))
    ensures SaveEach(db, objects[i..]).rows == [w.site] + SaveEach(w.db, objects[i + 1..]).rows
    ensures SaveEach(db, objects[i..]).db == SaveEach(w.db, objects[i + 1..]).db
  {
    assert objects[i..][1..] == objects[i + 1..];
  }

  /** The loop state of the saving loop: the objects saved so far, followed
      by saving the rest, give `goal`. */
  predicate SavingFrom(done: seq<SiteRow>, db: Db, rest: seq<SiteRow>, goal: Saved) {
    done + SaveEach(db, rest).rows == goal.rows && SaveEach(db, rest).db == goal.db
  }

  method ModifyAndSaveSites(db: Database, sites: seq<SiteRow>, now: int) returns (modified: seq<SiteRow>)
    modifies db
    ensures Saved(modified, db.Value()) == ModifyAndSaveSitesSpec(old(db.Value()), sites, now)
  {
    var created: seq<SiteRow> := [];
    for i := 0 to |sites|
      invariant created == seq(i, k requires 0 <= k < i => Modified(sites[k], now))
      invariant db.Value() == old(db.Value())
    {
      var site := new Site.FromRow(SiteRow(0, "", "", Indexing, 0, ""));
      site.status := Indexing;
      site.statusTime := now;
      site.url := sites[i].url;
      site.name := sites[i].name;
      created := created + [site.Row()];
    }
    assert created == seq(|sites|, i requires 0 <= i < |sites| => Modified(sites[i], now));
    modified := SaveSites(db, created);
  }

  /** `modifiedSites.forEach(siteService::saveSite)`, each call a repository
      save; the result is the list, whose objects now hold their ids. */
  method SaveSites(db: Database, created: seq<SiteRow>) returns (modified: seq<SiteRow>)
    modifies db
    ensures Saved(modified, db.Value()) == SaveEach(old(db.Value()), created)
  {
    ghost var goal := SaveEach(db.Value(), created);
    assert created[0..] == created;
    modified := [];
    for i := 0 to |created|
      invariant SavingFrom(modified, db.Value(), created[i..], goal)
    {
      var site := new Site.FromRow(created[i]);
      ghost var before := db.Value();
      db.SaveSiteObject(site);
      SaveEachUnfolds(before, created, i, SiteWorld(site.Row(), db.Value()));
      modified := modified + [site.Row()];
    }
    assert created[|created|..] == [];
  }
}
