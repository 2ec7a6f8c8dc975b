/** DatabaseService: four writes, each run as one unit of work through a
    TransactionTemplate. `now` is the clock reading of `new Date()`. */
module DatabaseService {
  import opened Common
  import opened Store

  /** The fields `saveOrUpdateSite` resets: INDEXING, the current time and no
      error. The name is left alone. */
  function Stamped(row: SiteRow, now: int): (r: SiteRow)
    ensures r.id == row.id && r.url == row.url && r.name == row.name
    ensures r.status == Indexing && r.statusTime == now && r.lastError == ""
  {
    row.(status := Indexing, statusTime := now, lastError := "")
  }

  /** `saveOrUpdateSite(site)`: with no row for the url, the given object is
      stamped and saved; otherwise the first stored row with the url is
      stamped and saved, and the object is not touched. */
  function SaveOrUpdateSiteSpec(w: SiteWorld, now: int): SiteWorld {
    match SiteByUrl(w.db.sites, w.site.url)
    case None => SiteObjectSave(w.(site := Stamped(w.site, now)))
    case Some(p) => SiteWorld(w.site, SiteObjectSave(SiteWorld(Stamped(w.db.sites[p], now), w.db)).db)
  }

  /** A new object for an unknown url becomes exactly one new row, stamped,
      and the object takes the generated id. */
  lemma SaveOrUpdateSiteAbsent(w: SiteWorld, now: int)
    requires w.db.Valid() && w.site.id == 0 && SiteByUrl(w.db.sites, w.site.url).None?
    ensures SaveOrUpdateSiteSpec(w, now).site == Stamped(w.site, now).(id := w.db.nextSiteId)
    ensures SaveOrUpdateSiteSpec(w, now).db.sites == w.db.sites + [Stamped(w.site, now).(id := w.db.nextSiteId)]
    ensures SaveOrUpdateSiteSpec(w, now).db.Valid()
  {
    SiteSaveSpec(w.db, Stamped(w.site, now));
  }

  /** A known url adds no row: the stored row is stamped in place, keeping its
      name, and the object passed in is left as it was. */
  lemma SaveOrUpdateSiteExisting(w: SiteWorld, now: int)
    requires w.db.Valid() && SiteByUrl(w.db.sites, w.site.url).Some?
    ensures SaveOrUpdateSiteSpec(w, now).site == w.site
    ensures SaveOrUpdateSiteSpec(w, now).db ==
      w.db.(sites := w.db.sites[SiteByUrl(w.db.sites, w.site.url).value :=
                                Stamped(w.db.sites[SiteByUrl(w.db.sites, w.site.url).value], now)])
    ensures SaveOrUpdateSiteSpec(w, now).db.Valid()
  {
    var p := SiteByUrl(w.db.sites, w.site.url).value;
    SiteSaveReplaces(w.db, p, Stamped(w.db.sites[p], now));
  }

  method SaveOrUpdateSite(db: Database, site: Site, now: int)
    modifies db, site
    ensures SiteWorld(site.Row(), db.Value()) == SaveOrUpdateSiteSpec(SiteWorld(old(site.Row()), old(db.Value())), now)
  {
    var existing := SiteByUrl(db.sites, site.url);
    if existing.None? {
      site.status := Indexing;
      site.statusTime := now;
      site.lastError := "";
      db.SaveSiteObject(site);
    } else {
      var stored := new Site.FromRow(db.sites[existing.value]);
      stored.status := Indexing;
      stored.statusTime := now;
      stored.lastError := "";
      db.SaveSiteObject(stored);
    }
  }

  /** `savePage(page)`: `pageRepository.save(page)`. */
  method SavePage(db: Database, page: PageRow)
    modifies db
    ensures db.Value() == PageSave(old(db.Value()), page).db
  {
    var id := db.SavePage(page);
  }

  /** `saveLemmaAndIndex(lemma, index)`: `lemmaRepository.save(lemma)` and then
      `indexRepository.save(index)` in one transaction. The idx row is saved as
      the caller built it; nothing links it to the lemma just stored.
      `indexFault` is what saving the idx row throws, if anything; it rolls the
      lemma back too. */
  function SaveLemmaAndIndexSpec(db: Db, row: LemmaRow, index: IndexRow, indexFault: Option<Exception>): Outcome<()> {
    var l := LemmaSave(db, row);
    if indexFault.Some? then Outcome(RolledBack(l.db, db), Err(indexFault.value))
    else Outcome(IndexSave(l.db, index).db, Ok(()))
  }

  /** Both rows are stored or neither: on success the lemma table holds the
      lemma and the idx table holds the idx row exactly as given (its
      `lemmaId` included), each under its own id; on failure every table is as
      before. The keys stay valid either way. */
  lemma SaveLemmaAndIndexIsOneUnit(db: Db, row: LemmaRow, index: IndexRow, indexFault: Option<Exception>)
    requires db.Valid()
    ensures SaveLemmaAndIndexSpec(db, row, index, indexFault).db.Valid()
    ensures SaveLemmaAndIndexSpec(db, row, index, indexFault).result.Err? <==> indexFault.Some?
    ensures indexFault.Some? ==>
      SaveLemmaAndIndexSpec(db, row, index, indexFault).db.sites == db.sites &&
      SaveLemmaAndIndexSpec(db, row, index, indexFault).db.pages == db.pages &&
      SaveLemmaAndIndexSpec(db, row, index, indexFault).db.lemmas == db.lemmas &&
      SaveLemmaAndIndexSpec(db, row, index, indexFault).db.index == db.index
    ensures indexFault.None? ==>
      var after := SaveLemmaAndIndexSpec(db, row, index, indexFault).db;
      after.sites == db.sites && after.pages == db.pages &&
      (exists l | l in after.lemmas :: l == row.(id := l.id)) &&
      (exists x | x in after.index :: x == index.(id := x.id))
  {
    var l := LemmaSave(db, row);
    LemmaSaveSpec(db, row);
    if indexFault.Some? {
      RollbackKeepsValid(l.db, db);
    } else {
      IndexSaveSpec(l.db, index);
      var w := IndexSave(l.db, index);
      var k := IndexById(w.db.index, w.id).value;
      var p := LemmaById(w.db.lemmas, l.id).value;
      assert w.db.lemmas[p] == row.(id := w.db.lemmas[p].id);
      assert w.db.index[k] == index.(id := w.db.index[k].id);
    }
  }

  /** Two new rows are appended, the lemma under the next lemma id and the idx
      row under the next idx id, and the idx row keeps the lemma id the caller
      gave it, whether or not that is the new lemma's. */
  lemma SaveLemmaAndIndexAppends(db: Db, row: LemmaRow, index: IndexRow)
    requires db.Valid() && row.id == 0 && index.id == 0
    ensures SaveLemmaAndIndexSpec(db, row, index, None).db.lemmas == db.lemmas + [row.(id := db.nextLemmaId)]
    ensures SaveLemmaAndIndexSpec(db, row, index, None).db.index == db.index + [index.(id := db.nextIndexId)]
  {
  }

  method SaveLemmaAndIndex(db: Database, row: LemmaRow, index: IndexRow, indexFault: Option<Exception>)
    returns (r: Result<()>)
    modifies db
    ensures Outcome(db.Value(), r) == SaveLemmaAndIndexSpec(old(db.Value()), row, index, indexFault)
  {
    var before := db.Value();
    var lemmaId := db.SaveLemma(row);
    if indexFault.Some? {
      db.Rollback(before);
      return Err(indexFault.value);
    }
    var indexId := db.SaveIndex(index);
    r := Ok(());
  }

  /** `updateSiteStatus(site, status)`: status and status time both change. */
  function UpdateSiteStatusSpec(w: SiteWorld, status: Status, now: int): SiteWorld {
    SiteObjectSave(w.(site := w.site.(status := status, statusTime := now)))
  }

  /** On an object stored under its id, the row takes the status and the time,
      and nothing else changes. */
  lemma UpdateSiteStatusStamps(w: SiteWorld, status: Status, now: int, p: nat)
    requires w.db.Valid() && p < |w.db.sites| && w.db.sites[p] == w.site
    ensures UpdateSiteStatusSpec(w, status, now).site == w.site.(status := status, statusTime := now)
    ensures UpdateSiteStatusSpec(w, status, now).db ==
      w.db.(sites := w.db.sites[p := w.site.(status := status, statusTime := now)])
  {
    SiteSaveReplaces(w.db, p, w.site.(status := status, statusTime := now));
  }

  method UpdateSiteStatus(db: Database, site: Site, status: Status, now: int)
    modifies db, site
    ensures SiteWorld(site.Row(), db.Value()) == UpdateSiteStatusSpec(SiteWorld(old(site.Row()), old(db.Value())), status, now)
  {
    site.status := status;
    site.statusTime := now;
    db.SaveSiteObject(site);
  }
}
