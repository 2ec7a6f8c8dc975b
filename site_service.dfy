/** SiteService: site entities built from the YAML configuration, the
    INDEXED checks behind the search endpoint, and the writes that keep a
    site's status, name and last error. A clock reading (`new Date()`) is the
    parameter `now`, in milliseconds. */
module SiteService {
  import opened Common
  import opened Store

  /** searchengine.config.Site: a url and a name from the configuration. */
  datatype ConfigSite = ConfigSite(url: string, name: string)

  /** `convertToEntitySite`: a new, unsaved site that is INDEXING with an
      empty last error. */
  function ConvertToEntitySite(config: ConfigSite, now: int): (r: SiteRow)
    ensures r.id == 0 && r.url == config.url && r.name == config.name
    ensures r.status == Indexing && r.statusTime == now && r.lastError == ""
  {
    SiteRow(0, config.url, config.name, Indexing, now, "")
  }

  /** Saving a converted site adds exactly one row, under a fresh id, holding
      the configured url and name. */
  lemma ConvertedSiteIsNew(db: Db, config: ConfigSite, now: int)
    requires db.Valid()
    ensures SiteObjectSave(SiteWorld(ConvertToEntitySite(config, now), db)).db.sites ==
      db.sites + [SiteRow(db.nextSiteId, config.url, config.name, Indexing, now, "")]
    ensures SiteObjectSave(SiteWorld(ConvertToEntitySite(config, now), db)).site.id == db.nextSiteId
    ensures SiteObjectSave(SiteWorld(ConvertToEntitySite(config, now), db)).db.Valid()
  {
    SiteSaveSpec(db, ConvertToEntitySite(config, now));
  }

  /** `getAllConfigSitesAsEntities`: nothing for a missing or empty list,
      otherwise one converted site per configured site, in order. */
  function GetAllConfigSitesAsEntities(config: Option<seq<ConfigSite>>, now: int): (r: seq<SiteRow>)
    ensures config.None? ==> r == []
    ensures config.Some? ==> |r| == |config.value|
    ensures config.Some? ==> forall i | 0 <= i < |r| ::
      r[i].url == config.value[i].url && r[i].name == config.value[i].name &&
      r[i].id == 0 && r[i].status == Indexing && r[i].lastError == ""
  {
    if config.None? || config.value == [] then []
    else seq(|config.value|, i requires 0 <= i < |config.value| => ConvertToEntitySite(config.value[i], now))
  }

  /** `siteRepository.existsByStatus(status)`. */
  function ExistsByStatus(sites: seq<SiteRow>, status: Status): (r: bool)
    ensures r <==> exists i | 0 <= i < |sites| :: sites[i].status == status
  {
    if sites == [] then false
    else if sites[0].status == status then true
    else
      var rest := ExistsByStatus(sites[1..], status);
      assert rest <==> exists i | 1 <= i < |sites| :: sites[i].status == status by {
        if rest {
          var i :| 0 <= i < |sites[1..]| && sites[1..][i].status == status;
          assert sites[i + 1].status == status;
        }
      }
      rest
  }

  /** `siteRepository.existsByUrlAndStatus(url, status)`. */
  function ExistsByUrlAndStatus(sites: seq<SiteRow>, url: string, status: Status): (r: bool)
    ensures r <==> exists i | 0 <= i < |sites| :: sites[i].url == url && sites[i].status == status
  {
    if sites == [] then false
    else if sites[0].url == url && sites[0].status == status then true
    else
      var rest := ExistsByUrlAndStatus(sites[1..], url, status);
      assert rest <==> exists i | 1 <= i < |sites| :: sites[i].url == url && sites[i].status == status by {
        if rest {
          var i :| 0 <= i < |sites[1..]| && sites[1..][i].url == url && sites[1..][i].status == status;
          assert sites[i + 1] == sites[1..][i];
        }
      }
      rest
  }

  /** `isSiteIndexed(siteUrl)`: with no url, whether any site is INDEXED;
      otherwise whether a site with that url is. */
  function IsSiteIndexed(sites: seq<SiteRow>, siteUrl: Option<string>): (r: bool)
    ensures siteUrl.None? || siteUrl.value == [] ==>
      (r <==> exists i | 0 <= i < |sites| :: sites[i].status == Indexed)
    ensures siteUrl.Some? && siteUrl.value != [] ==>
      (r <==> exists i | 0 <= i < |sites| :: sites[i].url == siteUrl.value && sites[i].status == Indexed)
  {
    if siteUrl.None? || siteUrl.value == [] then ExistsByStatus(sites, Indexed)
    else ExistsByUrlAndStatus(sites, siteUrl.value, Indexed)
  }

  /** An indexed url answers for the whole table: once some site is INDEXED
      under a url, the check without a url holds too. */
  lemma IndexedUrlMeansSomeIndexed(sites: seq<SiteRow>, url: string)
    requires IsSiteIndexed(sites, Some(url))
    ensures IsSiteIndexed(sites, None)
  {
    if url != [] {
      var i :| 0 <= i < |sites| && sites[i].url == url && sites[i].status == Indexed;
    }
  }

  function SiteUrlMissingMessage(url: string): string {
    "Сайт с URL " + url + " не найден"
  }

  /** `findSiteByUrl(siteUrl)`: the site with that url, or
      IllegalArgumentException when there is none. */
  function FindSiteByUrl(sites: seq<SiteRow>, url: string): (r: Result<SiteRow>)
    ensures r.Err? <==> forall i | 0 <= i < |sites| :: sites[i].url != url
    ensures r.Err? ==> r.error == Exception(IllegalArgument, SiteUrlMissingMessage(url))
    ensures r.Ok? ==> r.value in sites && r.value.url == url
  {
    match SiteByUrl(sites, url)
    case None => Err(Exception(IllegalArgument, SiteUrlMissingMessage(url)))
    case Some(p) => Ok(sites[p])
  }

  // ---------------------------------------------------------------------------
  // saveOrUpdateSite

  const StaleIndexingMessage: string := "Timeout error: indexing took too long."

  /** `ChronoUnit.MINUTES.between(from, to)` on millisecond readings: whole
      minutes, truncated toward zero. */
  function MinutesBetween(from: int, to: int): int {
    var d := to - from;
    if d >= 0 then d / 60000 else -((-d) / 60000)
  }

  /** The stored row as `saveOrUpdateSite` leaves it: the new name, INDEXING,
      the current time and no error. */
  function Refreshed(row: SiteRow, name: string, now: int): (r: SiteRow)
    ensures r.id == row.id && r.url == row.url && r.name == name
    ensures r.status == Indexing && r.statusTime == now && r.lastError == ""
  {
    row.(name := name, status := Indexing, statusTime := now, lastError := "")
  }

  /** `saveOrUpdateSite(site)`: the first row with the site's url refreshed,
      or a new row for it; the result pairs the saved entity with the
      database. */
  function SaveOrUpdateSiteSpec(db: Db, site: SiteRow, now: int): SiteWorld {
    match SiteByUrl(db.sites, site.url)
    case Some(p) => SiteObjectSave(SiteWorld(Refreshed(db.sites[p], site.name, now), db))
    case None => SiteObjectSave(SiteWorld(SiteRow(0, site.url, site.name, Indexing, now, ""), db))
  }

  /** A site already stored under the url is refreshed in place: no row is
      added, and the returned entity is the refreshed row. */
  lemma SaveOrUpdateExisting(db: Db, site: SiteRow, now: int)
    requires db.Valid() && SiteByUrl(db.sites, site.url).Some?
    ensures SaveOrUpdateSiteSpec(db, site, now).db ==
      db.(sites := db.sites[SiteByUrl(db.sites, site.url).value :=
                            Refreshed(db.sites[SiteByUrl(db.sites, site.url).value], site.name, now)])
    ensures SaveOrUpdateSiteSpec(db, site, now).site ==
      Refreshed(db.sites[SiteByUrl(db.sites, site.url).value], site.name, now)
    ensures SaveOrUpdateSiteSpec(db, site, now).db.Valid()
  {
    var p := SiteByUrl(db.sites, site.url).value;
    SiteSaveReplaces(db, p, Refreshed(db.sites[p], site.name, now));
  }

  /** A url with no row gets exactly one new row: INDEXING, no error, the
      current time, under the next id. */
  lemma SaveOrUpdateAbsent(db: Db, site: SiteRow, now: int)
    requires db.Valid() && SiteByUrl(db.sites, site.url).None?
    ensures SaveOrUpdateSiteSpec(db, site, now).db.sites ==
      db.sites + [SiteRow(db.nextSiteId, site.url, site.name, Indexing, now, "")]
    ensures SaveOrUpdateSiteSpec(db, site, now).site == SiteRow(db.nextSiteId, site.url, site.name, Indexing, now, "")
    ensures SaveOrUpdateSiteSpec(db, site, now).db.Valid()
  {
    SiteSaveSpec(db, SiteRow(0, site.url, site.name, Indexing, now, ""));
  }

  /** What the stored row held before does not matter: whatever its status,
      time and error (the stale-INDEXING reset included), the outcome is the
      same. */
  lemma SaveOrUpdateIgnoresPriorState(db: Db, site: SiteRow, now: int, p: nat, status: Status, time: int, error: string)
    requires db.Valid() && SiteByUrl(db.sites, site.url) == Some(p)
    ensures SaveOrUpdateSiteSpec(db.(sites := db.sites[p := db.sites[p].(status := status, statusTime := time, lastError := error)]), site, now) ==
      SaveOrUpdateSiteSpec(db, site, now)
  {
    var other := db.(sites := db.sites[p := db.sites[p].(status := status, statusTime := time, lastError := error)]);
    SameUrlsSameLookup(other.sites, db.sites, site.url);
  }

  lemma {:induction false} SameUrlsSameLookup(a: seq<SiteRow>, b: seq<SiteRow>, url: string)
    requires |a| == |b| && forall i | 0 <= i < |a| :: a[i].url == b[i].url
    ensures SiteByUrl(a, url) == SiteByUrl(b, url)
  {
    if SiteByUrl(b, url).Some? {
      var p := SiteByUrl(b, url).value;
      assert a[p].url == url;
      if SiteByUrl(a, url).Some? {
        var q := SiteByUrl(a, url).value;
        assert b[q].url == url;
      }
    } else {
      assert forall i | 0 <= i < |a| :: a[i].url == b[i].url;
    }
  }

  /** Saving twice at the same time leaves the same table as saving once. */
  lemma SaveOrUpdateIdempotent(db: Db, site: SiteRow, now: int)
    requires db.Valid()
    ensures SaveOrUpdateSiteSpec(SaveOrUpdateSiteSpec(db, site, now).db, site, now).db.sites ==
      SaveOrUpdateSiteSpec(db, site, now).db.sites
  {
    var once := SaveOrUpdateSiteSpec(db, site, now).db;
    if SiteByUrl(db.sites, site.url).Some? {
      var p := SiteByUrl(db.sites, site.url).value;
      SaveOrUpdateExisting(db, site, now);
      SameUrlsSameLookup(once.sites, db.sites, site.url);
      SaveOrUpdateExisting(once, site, now);
    } else {
      SaveOrUpdateAbsent(db, site, now);
      var p := |db.sites|;
      SiteByUrlAt(once.sites, site.url, p);
      SaveOrUpdateExisting(once, site, now);
    }
  }

  lemma SiteByUrlAt(rows: seq<SiteRow>, url: string, p: nat)
    requires p < |rows| && rows[p].url == url
    requires forall i | 0 <= i < p :: rows[i].url != url
    ensures SiteByUrl(rows, url) == Some(p)
  {
  }

  /** The first row with the url is INDEXING with no error. */
  predicate StoredAsIndexing(sites: seq<SiteRow>, url: string) {
    SiteByUrl(sites, url).Some? &&
    sites[SiteByUrl(sites, url).value].status == Indexing &&
    sites[SiteByUrl(sites, url).value].lastError == ""
  }

  /** Whatever the table held, after `saveOrUpdateSite` the site's url leads to
      an INDEXING row with no error. */
  lemma SaveOrUpdateStoresIndexing(db: Db, site: SiteRow, now: int)
    requires db.Valid()
    ensures SaveOrUpdateSiteSpec(db, site, now).db.Valid()
    ensures StoredAsIndexing(SaveOrUpdateSiteSpec(db, site, now).db.sites, site.url)
  {
    var after := SaveOrUpdateSiteSpec(db, site, now).db;
    if SiteByUrl(db.sites, site.url).Some? {
      SaveOrUpdateExisting(db, site, now);
      SameUrlsSameLookup(after.sites, db.sites, site.url);
    } else {
      SaveOrUpdateAbsent(db, site, now);
      SiteByUrlAt(after.sites, site.url, |db.sites|);
    }
  }

  /** `saveOrUpdateSite(site)` on the database. The stale-INDEXING branch sets
      FAILED and an error on the loaded entity, which the next four setters
      overwrite. */
  method SaveOrUpdateSite(db: Database, site: Site, now: int) returns (saved: SiteRow)
    modifies db
    ensures SiteWorld(saved, db.Value()) == SaveOrUpdateSiteSpec(old(db.Value()), site.Row(), now)
  {
    var pos := SiteByUrl(db.sites, site.url);
    if pos.Some? {
      var existing := new Site.FromRow(db.sites[pos.value]);
      if existing.status == Indexing {
        var elapsedMinutes := MinutesBetween(existing.statusTime, now);
        if elapsedMinutes > 5 {
          existing.status := Failed;
          existing.lastError := StaleIndexingMessage;
        }
      }
      existing.name := site.name;
      existing.status := Indexing;
      existing.statusTime := now;
      existing.lastError := "";
      db.SaveSiteObject(existing);
      saved := existing.Row();
    } else {
      var created := new Site.FromRow(SiteRow(0, site.url, site.name, Indexing, now, ""));
      db.SaveSiteObject(created);
      saved := created.Row();
    }
  }

  // ---------------------------------------------------------------------------
  // updateSiteStatus, updateSiteLastError

  /** `updateSiteStatus(site, status)`: the object takes the status and is
      saved whole. */
  function UpdateSiteStatusSpec(w: SiteWorld, status: Status): SiteWorld {
    SiteObjectSave(w.(site := w.site.(status := status)))
  }

  /** `updateSiteLastError(site, message)`: the object takes the message and
      is saved whole. */
  function UpdateSiteLastErrorSpec(w: SiteWorld, message: string): SiteWorld {
    SiteObjectSave(w.(site := w.site.(lastError := message)))
  }

  /** The object is stored as the row with its id. */
  predicate InSync(w: SiteWorld) {
    w.db.Valid() && SiteById(w.db.sites, w.site.id).Some? &&
    w.db.sites[SiteById(w.db.sites, w.site.id).value] == w.site
  }

  /** Saving an object whose id is stored replaces that row with the object,
      which is then in sync with it. */
  lemma SavedObjectInSync(w: SiteWorld)
    requires w.db.Valid() && SiteById(w.db.sites, w.site.id).Some?
    ensures SiteObjectSave(w).site == w.site
    ensures SiteObjectSave(w).db == w.db.(sites := w.db.sites[SiteById(w.db.sites, w.site.id).value := w.site])
    ensures InSync(SiteObjectSave(w))
  {
    var p := SiteById(w.db.sites, w.site.id).value;
    SiteSaveReplaces(w.db, p, w.site);
    SiteByIdAt(SiteObjectSave(w).db.sites, w.db.nextSiteId, p);
  }

  /** On an object stored under its id, `updateSiteStatus` changes the status
      of that row and nothing else: the status time stays. */
  lemma UpdateSiteStatusOnlyStatus(w: SiteWorld, status: Status)
    requires InSync(w)
    ensures UpdateSiteStatusSpec(w, status).site == w.site.(status := status)
    ensures UpdateSiteStatusSpec(w, status).db ==
      w.db.(sites := w.db.sites[SiteById(w.db.sites, w.site.id).value := w.site.(status := status)])
    ensures InSync(UpdateSiteStatusSpec(w, status))
  {
    SavedObjectInSync(w.(site := w.site.(status := status)));
  }

  /** On an object stored under its id, `updateSiteLastError` changes the last
      error of that row and nothing else. */
  lemma UpdateSiteLastErrorOnlyError(w: SiteWorld, message: string)
    requires InSync(w)
    ensures UpdateSiteLastErrorSpec(w, message).site == w.site.(lastError := message)
    ensures UpdateSiteLastErrorSpec(w, message).db ==
      w.db.(sites := w.db.sites[SiteById(w.db.sites, w.site.id).value := w.site.(lastError := message)])
    ensures InSync(UpdateSiteLastErrorSpec(w, message))
  {
    SavedObjectInSync(w.(site := w.site.(lastError := message)));
  }

  method UpdateSiteStatus(db: Database, site: Site, status: Status)
    modifies db, site
    ensures SiteWorld(site.Row(), db.Value()) == UpdateSiteStatusSpec(SiteWorld(old(site.Row()), old(db.Value())), status)
  {
    site.status := status;
    db.SaveSiteObject(site);
  }

  method UpdateSiteLastError(db: Database, site: Site, message: string)
    modifies db, site
    ensures SiteWorld(site.Row(), db.Value()) == UpdateSiteLastErrorSpec(SiteWorld(old(site.Row()), old(db.Value())), message)
  {
    site.lastError := message;
    db.SaveSiteObject(site);
  }
}
