/** IndexingService: the background indexing of every stored site. Each site
    goes through `processSite`, a loop of at most three attempts in which
    only a lock failure is retried; an attempt marks the site INDEXING, indexes
    its root url with `indexPage` and marks it INDEXED.

    What the collaborators do is input: for each attempt, what the site writes
    before and after indexing throw, and what PageService.indexPage is given
    (the fetched document, the HTML cleaner, the URL parser). The clock
    reading is `now`.

    Every status change in the repository's code is `updateSiteStatus(site, s)`
    followed by `siteService.saveOrUpdateSite(site)`, and the latter stores the
    row as INDEXING with no error whatever `s` was. `Marking` selects between
    that code (`ThenUpsert`) and the same code without the trailing upsert
    (`StatusOnly`), under which the status and error reach the table. */
module IndexingService {
  import opened Common
  import opened Store
  import SiteService
  import PageService

  datatype Marking = ThenUpsert | StatusOnly

  /** What PageService.indexPage works from on one call. */
  datatype PageInput = PageInput(fetched: Result<PageService.Document>, clean: string -> string, parse: string -> Option<Url>)

  /** One pass of the retry loop: what the INDEXING write before the page
      throws, the page's inputs, and what the INDEXED write after it throws. */
  datatype Attempt = Attempt(startFault: Option<Exception>, page: PageInput, finishFault: Option<Exception>)

  /** The site object and the database after a call, and how the call ended. */
  datatype Step = Step(w: SiteWorld, result: Result<()>)

  /** `processSite`'s outcome, with the number of attempts it made. */
  datatype Run = Run(w: SiteWorld, result: Result<()>, tries: nat)

  /** `startIndexing`'s outcome, with the number of sites handed to
      `processSite`. */
  datatype Batch = Batch(db: Db, result: Result<()>, processed: nat)

  const MaxAttempts: nat := 3

  const ProcessingPrefix: string := "Ошибка обработки: "
  const TimeoutPrefix: string := "Таймаут подключения: "
  const NoSitesMessage: string := "В базе данных не найдено сайтов."
  const IndexingFailedPrefix: string := "Ошибка при индексации: "

  function SiteFailedMessage(url: string, cause: string): string {
    "Ошибка при обработке сайта " + url + ": " + cause
  }

  function PageTimeoutMessage(url: string, cause: string): string {
    "Таймаут подключения к странице " + url + ": " + cause
  }

  function PageIOMessage(url: string, cause: string): string {
    "Ошибка ввода-вывода при индексировании страницы " + url + ": " + cause
  }

  function PageFailedMessage(url: string, cause: string): string {
    "Ошибка при обработке страницы " + url + ": " + cause
  }

  // ---------------------------------------------------------------------------
  // Status changes

  /** `updateSiteStatus(site, status)`, then (as written) `saveOrUpdateSite(site)`. */
  function SetStatus(w: SiteWorld, status: Status, now: int, mode: Marking): (r: SiteWorld)
    ensures r.site.status == status && r.site.url == w.site.url && r.site.lastError == w.site.lastError
    ensures w.site.id != 0 ==> r.site.id == w.site.id
  {
    var u := SiteService.UpdateSiteStatusSpec(w, status);
    if mode == ThenUpsert then SiteWorld(u.site, SiteService.SaveOrUpdateSiteSpec(u.db, u.site, now).db) else u
  }

  /** The catch blocks: FAILED, then the error message, then (as written)
      `saveOrUpdateSite(site)`. */
  function MarkFailed(w: SiteWorld, message: string, now: int, mode: Marking): (r: SiteWorld)
    ensures r.site.status == Failed && r.site.lastError == message && r.site.url == w.site.url
    ensures w.site.id != 0 ==> r.site.id == w.site.id
  {
    var u := SiteService.UpdateSiteLastErrorSpec(SiteService.UpdateSiteStatusSpec(w, Failed), message);
    if mode == ThenUpsert then SiteWorld(u.site, SiteService.SaveOrUpdateSiteSpec(u.db, u.site, now).db) else u
  }

  // ---------------------------------------------------------------------------
  // indexPage

  /** The last error `indexPage` records for a failure of PageService.indexPage. */
  function PageErrorText(e: Exception): string {
    if e.kind == SocketTimeout then TimeoutPrefix + e.message else e.message
  }

  /** The IOException `indexPage` throws for a failure of PageService.indexPage. */
  function PageError(url: string, e: Exception): Exception {
    if e.kind == SocketTimeout then Exception(IO, PageTimeoutMessage(url, e.message))
    else if e.kind == IO then Exception(IO, PageIOMessage(url, e.message))
    else Exception(IO, PageFailedMessage(url, e.message))
  }

  /** `indexPage(url, site)`: INDEXING, PageService.indexPage(url), INDEXED; a
      failure marks the site FAILED and comes back as IOException. */
  function IndexPageSpec(w: SiteWorld, url: string, page: PageInput, now: int, mode: Marking): (r: Step)
    ensures r.result.Ok? ==> r.w.site.status == Indexed
    ensures r.result.Err? ==> r.w.site.status == Failed && r.result.error.kind == IO
    ensures r.w.site.url == w.site.url
    ensures w.site.id != 0 ==> r.w.site.id == w.site.id
  {
    var started := SetStatus(w, Indexing, now, mode);
    var o := PageService.IndexPageSpec(started.db, url, page.fetched, page.clean, page.parse);
    var after := SiteWorld(started.site, o.db);
    if o.result.Ok? then Step(SetStatus(after, Indexed, now, mode), Ok(()))
    else Step(MarkFailed(after, PageErrorText(o.result.error), now, mode), Err(PageError(url, o.result.error)))
  }

  /** A timeout is recorded with its prefix, any other failure with its bare
      message, and each is rethrown as IOException naming the page. */
  lemma IndexPageErrorMapping(e: Exception, url: string)
    ensures PageError(url, e).kind == IO
    ensures e.kind == SocketTimeout ==>
      PageErrorText(e) == TimeoutPrefix + e.message && PageError(url, e).message == PageTimeoutMessage(url, e.message)
    ensures e.kind == IO ==>
      PageErrorText(e) == e.message && PageError(url, e).message == PageIOMessage(url, e.message)
    ensures !e.IsIOException() ==>
      PageErrorText(e) == e.message && PageError(url, e).message == PageFailedMessage(url, e.message)
  {
  }

  /** `indexPage` never lets a lock failure through, so `processSite` never
      retries what fails inside it. */
  lemma IndexPageNeverRetried(w: SiteWorld, url: string, page: PageInput, now: int, mode: Marking)
    ensures IndexPageSpec(w, url, page, now, mode).result.Err? ==>
      IndexPageSpec(w, url, page, now, mode).result.error.kind != PessimisticLockingFailure
  {
  }

  method IndexPage(db: Database, site: Site, url: string, page: PageInput, now: int, mode: Marking) returns (r: Result<()>)
    modifies db, site
    ensures Step(SiteWorld(site.Row(), db.Value()), r) ==
      IndexPageSpec(SiteWorld(old(site.Row()), old(db.Value())), url, page, now, mode)
  {
    Mark(db, site, Indexing, now, mode);
    var res := PageService.IndexPage(db, url, page.fetched, page.clean, page.parse);
    if res.Ok? {
      Mark(db, site, Indexed, now, mode);
      return Ok(());
    }
    Fail(db, site, PageErrorText(res.error), now, mode);
    r := Err(PageError(url, res.error));
  }

  method Mark(db: Database, site: Site, status: Status, now: int, mode: Marking)
    modifies db, site
    ensures SiteWorld(site.Row(), db.Value()) == SetStatus(SiteWorld(old(site.Row()), old(db.Value())), status, now, mode)
  {
    SiteService.UpdateSiteStatus(db, site, status);
    if mode == ThenUpsert {
      var saved := SiteService.SaveOrUpdateSite(db, site, now);
    }
  }

  method Fail(db: Database, site: Site, message: string, now: int, mode: Marking)
    modifies db, site
    ensures SiteWorld(site.Row(), db.Value()) == MarkFailed(SiteWorld(old(site.Row()), old(db.Value())), message, now, mode)
  {
    SiteService.UpdateSiteStatus(db, site, Failed);
    SiteService.UpdateSiteLastError(db, site, message);
    if mode == ThenUpsert {
      var saved := SiteService.SaveOrUpdateSite(db, site, now);
    }
  }

  // ---------------------------------------------------------------------------
  // What a status change leaves in the table

  /** The object's id is a stored site's. */
  predicate Stored(w: SiteWorld) {
    w.db.Valid() && SiteById(w.db.sites, w.site.id).Some?
  }

  /** As written, a status change ends with the site's url stored as INDEXING
      with no error, whatever `status` was; without the upsert the object is
      stored as it now is. */
  lemma SetStatusStores(w: SiteWorld, status: Status, now: int, mode: Marking)
    requires w.db.Valid()
    ensures SetStatus(w, status, now, mode).db.Valid()
    ensures mode == ThenUpsert ==> StoredAsIndexingAfter(SetStatus(w, status, now, mode), w.site.url)
    ensures mode == StatusOnly && Stored(w) ==> SiteService.InSync(SetStatus(w, status, now, mode))
  {
    var v := w.(site := w.site.(status := status));
    SiteSaveSpec(w.db, v.site);
    var u := SiteService.UpdateSiteStatusSpec(w, status);
    if mode == ThenUpsert {
      SiteService.SaveOrUpdateStoresIndexing(u.db, u.site, now);
    } else if Stored(w) {
      SiteService.SavedObjectInSync(v);
    }
  }

  /** The same for the catch blocks: as written the FAILED status and the
      message are overwritten by INDEXING and no error. */
  lemma MarkFailedStores(w: SiteWorld, message: string, now: int, mode: Marking)
    requires w.db.Valid()
    ensures MarkFailed(w, message, now, mode).db.Valid()
    ensures mode == ThenUpsert ==> StoredAsIndexingAfter(MarkFailed(w, message, now, mode), w.site.url)
    ensures mode == StatusOnly && Stored(w) ==> SiteService.InSync(MarkFailed(w, message, now, mode))
  {
    var v := w.(site := w.site.(status := Failed));
    SiteSaveSpec(w.db, v.site);
    var f := SiteService.UpdateSiteStatusSpec(w, Failed);
    var e := f.(site := f.site.(lastError := message));
    SiteSaveSpec(f.db, e.site);
    var u := SiteService.UpdateSiteLastErrorSpec(f, message);
    if mode == ThenUpsert {
      SiteService.SaveOrUpdateStoresIndexing(u.db, u.site, now);
    } else if Stored(w) {
      SiteService.SavedObjectInSync(v);
      SiteService.SavedObjectInSync(e);
    }
  }

  /** The site's url leads to an INDEXING row with no error, in a valid table. */
  predicate StoredAsIndexingAfter(w: SiteWorld, url: string) {
    w.db.Valid() && SiteService.StoredAsIndexing(w.db.sites, url)
  }

  lemma IndexPageStores(w: SiteWorld, url: string, page: PageInput, now: int, mode: Marking)
    requires w.db.Valid()
    ensures IndexPageSpec(w, url, page, now, mode).w.db.Valid()
    ensures mode == ThenUpsert ==> StoredAsIndexingAfter(IndexPageSpec(w, url, page, now, mode).w, w.site.url)
    ensures mode == StatusOnly && Stored(w) ==> SiteService.InSync(IndexPageSpec(w, url, page, now, mode).w)
  {
    var started := SetStatus(w, Indexing, now, mode);
    SetStatusStores(w, Indexing, now, mode);
    PageService.IndexPageKeepsSites(started.db, url, page.fetched, page.clean, page.parse);
    var o := PageService.IndexPageSpec(started.db, url, page.fetched, page.clean, page.parse);
    var after := SiteWorld(started.site, o.db);
    if o.result.Ok? {
      SetStatusStores(after, Indexed, now, mode);
    } else {
      MarkFailedStores(after, PageErrorText(o.result.error), now, mode);
    }
  }

  lemma AttemptStores(w: SiteWorld, a: Attempt, now: int, mode: Marking)
    requires w.db.Valid()
    ensures AttemptSpec(w, a, now, mode).w.db.Valid()
    ensures mode == ThenUpsert && AttemptSpec(w, a, now, mode).result.Ok? ==>
      StoredAsIndexingAfter(AttemptSpec(w, a, now, mode).w, w.site.url)
    ensures mode == StatusOnly && Stored(w) ==> Stored(AttemptSpec(w, a, now, mode).w)
    ensures mode == StatusOnly && Stored(w) && AttemptSpec(w, a, now, mode).result.Ok? ==>
      SiteService.InSync(AttemptSpec(w, a, now, mode).w)
  {
    if a.startFault.None? {
      var started := SetStatus(w, Indexing, now, mode);
      SetStatusStores(w, Indexing, now, mode);
      IndexPageStores(started, started.site.url, a.page, now, mode);
      var page := IndexPageSpec(started, started.site.url, a.page, now, mode);
      if page.result.Ok? && a.finishFault.None? {
        SetStatusStores(page.w, Indexed, now, mode);
      }
    }
  }

  // ---------------------------------------------------------------------------
  // processSite

  /** One pass of the loop body: INDEXING, the site's root url through
      `indexPage`, INDEXED. A failing write sets the status on the object and
      throws before anything is stored. */
  function AttemptSpec(w: SiteWorld, a: Attempt, now: int, mode: Marking): (r: Step)
    ensures r.w.site.url == w.site.url
    ensures r.result.Ok? ==> r.w.site.status == Indexed
    ensures w.site.id != 0 ==> r.w.site.id == w.site.id
  {
    if a.startFault.Some? then Step(w.(site := w.site.(status := Indexing)), Err(a.startFault.value))
    else
      var started := SetStatus(w, Indexing, now, mode);
      var page := IndexPageSpec(started, started.site.url, a.page, now, mode);
      if page.result.Err? then page
      else if a.finishFault.Some? then Step(page.w.(site := page.w.site.(status := Indexed)), Err(a.finishFault.value))
      else Step(SetStatus(page.w, Indexed, now, mode), Ok(()))
  }

  /** `processSite(site)` from attempt `done + 1` on, the first `done` having
      failed on a lock. A lock failure is retried while fewer than three
      attempts were made; the third, or any other failure, marks the site
      FAILED and throws IOException. */
  function ProcessSiteFrom(w: SiteWorld, attempts: nat -> Attempt, done: nat, now: int, mode: Marking): (r: Run)
    requires done < MaxAttempts
    ensures done < r.tries <= MaxAttempts
    ensures r.w.site.url == w.site.url
    ensures r.result.Ok? ==> r.w.site.status == Indexed
    ensures r.result.Err? ==> r.w.site.status == Failed && r.result.error.kind == IO
    ensures w.site.id != 0 ==> r.w.site.id == w.site.id
    decreases MaxAttempts - done
  {
    var s := AttemptSpec(w, attempts(done), now, mode);
    if s.result.Ok? then Run(s.w, Ok(()), done + 1)
    else if s.result.error.kind == PessimisticLockingFailure && done + 1 < MaxAttempts then
      ProcessSiteFrom(s.w, attempts, done + 1, now, mode)
    else
      var cause := s.result.error.message;
      Run(MarkFailed(s.w, ProcessingPrefix + cause, now, mode), Err(Exception(IO, SiteFailedMessage(w.site.url, cause))), done + 1)
  }

  function ProcessSiteSpec(w: SiteWorld, attempts: nat -> Attempt, now: int, mode: Marking): Run {
    ProcessSiteFrom(w, attempts, 0, now, mode)
  }

  /** Only a lock failure earns another attempt. */
  lemma ProcessSiteRetriesOnlyLocks(w: SiteWorld, attempts: nat -> Attempt, done: nat, now: int, mode: Marking)
    requires done < MaxAttempts
    ensures ProcessSiteFrom(w, attempts, done, now, mode).tries > done + 1 ==>
      AttemptSpec(w, attempts(done), now, mode).result.Err? &&
      AttemptSpec(w, attempts(done), now, mode).result.error.kind == PessimisticLockingFailure
  {
  }

  /** A failed run of `processSite` on the site at `url` records
      "Ошибка обработки: " and a cause as last error, and its IOException names
      the site and carries the same cause. */
  predicate ReportsCause(url: string, r: Run) {
    r.result.Err? ==>
      ProcessingPrefix <= r.w.site.lastError &&
      r.result.error.message == SiteFailedMessage(url, r.w.site.lastError[|ProcessingPrefix|..])
  }

  lemma {:induction false} ProcessSiteReportsCause(w: SiteWorld, attempts: nat -> Attempt, done: nat, now: int, mode: Marking)
    requires done < MaxAttempts
    ensures ReportsCause(w.site.url, ProcessSiteFrom(w, attempts, done, now, mode))
    decreases MaxAttempts - done
  {
    var s := AttemptSpec(w, attempts(done), now, mode);
    ProcessSiteUnfolds(w, attempts, done, now, mode, s);
    if s.result.Err? {
      if s.result.error.kind == PessimisticLockingFailure && done + 1 < MaxAttempts {
        ProcessSiteReportsCause(s.w, attempts, done + 1, now, mode);
      } else {
        FailureReportsCause(s.w, w.site.url, s.result.error.message, done + 1, now, mode);
      }
    }
  }

  lemma FailureReportsCause(w: SiteWorld, url: string, cause: string, tries: nat, now: int, mode: Marking)
    ensures ReportsCause(url, Run(MarkFailed(w, ProcessingPrefix + cause, now, mode), Err(Exception(IO, SiteFailedMessage(url, cause))), tries))
  {
    assert (ProcessingPrefix + cause)[|ProcessingPrefix|..] == cause;
  }

  /** A failure that is not a lock failure ends `processSite` at once: the site
      is FAILED with the cause as last error, and the IOException names the
      site. */
  lemma ProcessSiteStopsOnOtherFailure(w: SiteWorld, attempts: nat -> Attempt, done: nat, now: int, mode: Marking)
    requires done < MaxAttempts
    requires AttemptSpec(w, attempts(done), now, mode).result.Err?
    requires AttemptSpec(w, attempts(done), now, mode).result.error.kind != PessimisticLockingFailure
    ensures ProcessSiteFrom(w, attempts, done, now, mode).tries == done + 1
    ensures ProcessSiteFrom(w, attempts, done, now, mode).result ==
      Err(Exception(IO, SiteFailedMessage(w.site.url, AttemptSpec(w, attempts(done), now, mode).result.error.message)))
    ensures ProcessSiteFrom(w, attempts, done, now, mode).w.site.lastError ==
      ProcessingPrefix + AttemptSpec(w, attempts(done), now, mode).result.error.message
  {
  }

  /** Three lock failures in a row end in FAILED and IOException after the
      third attempt. */
  lemma ProcessSiteGivesUpAfterThreeLocks(w: SiteWorld, attempts: nat -> Attempt, now: int, mode: Marking)
    requires forall k | 0 <= k < MaxAttempts ::
      attempts(k).startFault.Some? && attempts(k).startFault.value.kind == PessimisticLockingFailure
    ensures ProcessSiteSpec(w, attempts, now, mode).tries == MaxAttempts
    ensures ProcessSiteSpec(w, attempts, now, mode).result.Err?
    ensures ProcessSiteSpec(w, attempts, now, mode).w.site.status == Failed
    ensures ProcessSiteSpec(w, attempts, now, mode).w.site.lastError ==
      ProcessingPrefix + attempts(2).startFault.value.message
  {
    var s0 := AttemptSpec(w, attempts(0), now, mode);
    var s1 := AttemptSpec(s0.w, attempts(1), now, mode);
    assert s1.w.site.url == w.site.url;
  }

  /** As written, `processSite` always leaves the site's url stored as
      INDEXING with no error: the INDEXED status of a success and the FAILED
      status and message of a failure stay on the object only. */
  lemma {:induction false} ProcessSiteLeavesIndexing(w: SiteWorld, url: string, attempts: nat -> Attempt, done: nat, now: int)
    requires w.db.Valid() && w.site.url == url && done < MaxAttempts
    ensures StoredAsIndexingAfter(ProcessSiteFrom(w, attempts, done, now, ThenUpsert).w, url)
    decreases MaxAttempts - done
  {
    var s := AttemptSpec(w, attempts(done), now, ThenUpsert);
    AttemptStores(w, attempts(done), now, ThenUpsert);
    ProcessSiteUnfolds(w, attempts, done, now, ThenUpsert, s);
    if s.result.Err? {
      if s.result.error.kind == PessimisticLockingFailure && done + 1 < MaxAttempts {
        ProcessSiteLeavesIndexing(s.w, url, attempts, done + 1, now);
      } else {
        MarkFailedStores(s.w, ProcessingPrefix + s.result.error.message, now, ThenUpsert);
      }
    }
  }

  /** Without the trailing upsert, `processSite` on a stored site leaves its
      row equal to the object: INDEXED after a success, FAILED with the cause
      after a failure. */
  lemma {:induction false} ProcessSiteRecordsOutcome(w: SiteWorld, id: nat, attempts: nat -> Attempt, done: nat, now: int)
    requires Stored(w) && w.site.id == id && done < MaxAttempts
    ensures InSyncAs(id, ProcessSiteFrom(w, attempts, done, now, StatusOnly).w)
    decreases MaxAttempts - done
  {
    var s := AttemptSpec(w, attempts(done), now, StatusOnly);
    AttemptKeepsSync(w, attempts(done), now);
    ProcessSiteUnfolds(w, attempts, done, now, StatusOnly, s);
    if s.result.Err? {
      if s.result.error.kind == PessimisticLockingFailure && done + 1 < MaxAttempts {
        ProcessSiteRecordsOutcome(s.w, id, attempts, done + 1, now);
      } else {
        FailureKeepsSync(s.w, id, ProcessingPrefix + s.result.error.message, now);
      }
    }
  }

  lemma AttemptKeepsSync(w: SiteWorld, a: Attempt, now: int)
    requires Stored(w)
    ensures Stored(AttemptSpec(w, a, now, StatusOnly).w)
    ensures AttemptSpec(w, a, now, StatusOnly).w.site.id == w.site.id
    ensures AttemptSpec(w, a, now, StatusOnly).result.Ok? ==> InSyncAs(w.site.id, AttemptSpec(w, a, now, StatusOnly).w)
  {
    StoredIdPositive(w);
    AttemptStores(w, a, now, StatusOnly);
  }

  lemma FailureKeepsSync(w: SiteWorld, id: nat, message: string, now: int)
    requires Stored(w) && w.site.id == id
    ensures InSyncAs(id, MarkFailed(w, message, now, StatusOnly))
  {
    StoredIdPositive(w);
    MarkFailedStores(w, message, now, StatusOnly);
  }

  lemma StoredIdPositive(w: SiteWorld)
    requires Stored(w)
    ensures w.site.id > 0
  {
    var p := SiteById(w.db.sites, w.site.id).value;
    assert w.db.sites[p].id == w.site.id && SitesValid(w.db.sites, w.db.nextSiteId);
  }

  /** The object keeps the id `id` and is stored as the row with it. */
  predicate InSyncAs(id: nat, w: SiteWorld) {
    SiteService.InSync(w) && w.site.id == id
  }

  method RunAttempt(db: Database, site: Site, a: Attempt, now: int, mode: Marking) returns (r: Result<()>)
    modifies db, site
    ensures Step(SiteWorld(site.Row(), db.Value()), r) == AttemptSpec(SiteWorld(old(site.Row()), old(db.Value())), a, now, mode)
  {
    if a.startFault.Some? {
      site.status := Indexing;
      return Err(a.startFault.value);
    }
    Mark(db, site, Indexing, now, mode);
    var pageUrls := [site.url];
    var res := IndexPage(db, site, pageUrls[0], a.page, now, mode);
    if res.Err? {
      return res;
    }
    if a.finishFault.Some? {
      site.status := Indexed;
      return Err(a.finishFault.value);
    }
    Mark(db, site, Indexed, now, mode);
    r := Ok(());
  }

  /** One turn of the loop, in terms of the attempt's outcome `s`. */
  lemma ProcessSiteUnfolds(w: SiteWorld, attempts: nat -> Attempt, done: nat, now: int, mode: Marking, s: Step)
    requires done < MaxAttempts && s == AttemptSpec(w, attempts(done), now, mode)
    ensures s.result.Ok? ==> ProcessSiteFrom(w, attempts, done, now, mode) == Run(s.w, Ok(()), done + 1)
    ensures s.result.Err? && s.result.error.kind == PessimisticLockingFailure && done + 1 < MaxAttempts ==>
      ProcessSiteFrom(w, attempts, done, now, mode) == ProcessSiteFrom(s.w, attempts, done + 1, now, mode)
    ensures s.result.Err? && !(s.result.error.kind == PessimisticLockingFailure && done + 1 < MaxAttempts) ==>
      ProcessSiteFrom(w, attempts, done, now, mode) ==
        Run(MarkFailed(s.w, ProcessingPrefix + s.result.error.message, now, mode),
            Err(Exception(IO, SiteFailedMessage(w.site.url, s.result.error.message))), done + 1)
  {
  }

  /** One pass of `processSite`'s loop with its catch blocks: `stop` tells
      whether the loop ends here, with `r` as the outcome of the call. */
  method AttemptOnce(db: Database, site: Site, attempts: nat -> Attempt, done: nat, now: int, mode: Marking)
    returns (r: Result<()>, stop: bool)
    requires done < MaxAttempts
    modifies db, site
    ensures site.url == old(site.url)
    ensures stop ==>
      Run(SiteWorld(site.Row(), db.Value()), r, done + 1) ==
      ProcessSiteFrom(SiteWorld(old(site.Row()), old(db.Value())), attempts, done, now, mode)
    ensures !stop ==> done + 1 < MaxAttempts
    ensures !stop ==>
      ProcessSiteFrom(SiteWorld(site.Row(), db.Value()), attempts, done + 1, now, mode) ==
      ProcessSiteFrom(SiteWorld(old(site.Row()), old(db.Value())), attempts, done, now, mode)
  {
    ghost var before := SiteWorld(site.Row(), db.Value());
    var a := RunAttempt(db, site, attempts(done), now, mode);
    ProcessSiteUnfolds(before, attempts, done, now, mode, Step(SiteWorld(site.Row(), db.Value()), a));
    if a.Ok? {
      return Ok(()), true;
    } else if a.error.kind == PessimisticLockingFailure && done + 1 < MaxAttempts {
      // retried after a two-second pause
      return a, false;
    }
    Fail(db, site, ProcessingPrefix + a.error.message, now, mode);
    r, stop := Err(Exception(IO, SiteFailedMessage(site.url, a.error.message))), true;
  }

  /** The loop of `processSite` after `tries` attempts: either it succeeded
      with the outcome `goal`, or `goal` is what the remaining attempts give. */
  predicate ProcessSiteLoop(w: SiteWorld, r: Result<()>, tries: nat, success: bool, attempts: nat -> Attempt,
                            now: int, mode: Marking, goal: Run)
  {
    tries <= MaxAttempts &&
    if success then Run(w, r, tries) == goal
    else tries < MaxAttempts && ProcessSiteFrom(w, attempts, tries, now, mode) == goal
  }

  /** `processSite(site)`. The two-second pause between attempts is not
      modelled. */
  method ProcessSite(db: Database, site: Site, attempts: nat -> Attempt, now: int, mode: Marking)
    returns (r: Result<()>, tries: nat)
    modifies db, site
    ensures Run(SiteWorld(site.Row(), db.Value()), r, tries) ==
      ProcessSiteSpec(SiteWorld(old(site.Row()), old(db.Value())), attempts, now, mode)
  {
    ghost var goal := ProcessSiteSpec(SiteWorld(site.Row(), db.Value()), attempts, now, mode);
    tries := 0;
    var success := false;
    r := Ok(());
    while tries < MaxAttempts && !success
      invariant ProcessSiteLoop(SiteWorld(site.Row(), db.Value()), r, tries, success, attempts, now, mode, goal)
      decreases MaxAttempts - tries
    {
      var stop;
      r, stop := AttemptOnce(db, site, attempts, tries, now, mode);
      tries := tries + 1;
      success := stop;
    }
  }

  // ---------------------------------------------------------------------------
  // startIndexing

  /** The site loop from the `i`-th loaded site on: the first failure marks that
      site FAILED and ends the loop with RuntimeException. */
  function SitesFrom(db: Db, sites: seq<SiteRow>, i: nat, plan: nat -> nat -> Attempt, now: int, mode: Marking): (r: Batch)
    requires i <= |sites|
    ensures i <= r.processed <= |sites|
    ensures r.result.Ok? <==> r.processed == |sites| && r.result == Ok(())
    ensures r.result.Err? ==> r.result.error.kind == Runtime
    decreases |sites| - i
  {
    if i == |sites| then Batch(db, Ok(()), i)
    else
      var run := ProcessSiteSpec(SiteWorld(sites[i], db), plan(i), now, mode);
      if run.result.Ok? then SitesFrom(run.w.db, sites, i + 1, plan, now, mode)
      else
        var cause := run.result.error.message;
        var failed := MarkFailed(run.w, ProcessingPrefix + cause, now, mode);
        Batch(failed.db, Err(Exception(Runtime, IndexingFailedPrefix + SiteFailedMessage(sites[i].url, cause))), i + 1)
  }

  /** One turn of the site loop, in terms of the site's run `run`. */
  lemma SitesFromUnfolds(db: Db, sites: seq<SiteRow>, i: nat, plan: nat -> nat -> Attempt, now: int, mode: Marking, run: Run)
    requires i < |sites| && run == ProcessSiteSpec(SiteWorld(sites[i], db), plan(i), now, mode)
    ensures run.result.Ok? ==> SitesFrom(db, sites, i, plan, now, mode) == SitesFrom(run.w.db, sites, i + 1, plan, now, mode)
    ensures run.result.Err? ==>
      SitesFrom(db, sites, i, plan, now, mode) ==
      Batch(MarkFailed(run.w, ProcessingPrefix + run.result.error.message, now, mode).db,
            Err(Exception(Runtime, IndexingFailedPrefix + SiteFailedMessage(sites[i].url, run.result.error.message))), i + 1)
  {
  }

  /** `startIndexing()`, the work it runs in the background: every site of the
      table, in order, through `processSite`; `plan(i)` gives the attempts of
      the `i`-th site. */
  function StartIndexingSpec(db: Db, plan: nat -> nat -> Attempt, now: int, mode: Marking): Batch {
    if db.sites == [] then Batch(db, Err(Exception(Runtime, IndexingFailedPrefix + NoSitesMessage)), 0)
    else SitesFrom(db, db.sites, 0, plan, now, mode)
  }

  /** With no site in the table nothing is processed and nothing is written. */
  lemma StartIndexingWithoutSites(db: Db, plan: nat -> nat -> Attempt, now: int, mode: Marking)
    requires db.sites == []
    ensures StartIndexingSpec(db, plan, now, mode) ==
      Batch(db, Err(Exception(Runtime, IndexingFailedPrefix + NoSitesMessage)), 0)
  {
  }

  /** One pass of `startIndexing`'s site loop with its catch block: the
      `i`-th loaded site through `processSite`, marked FAILED again and
      reported as RuntimeException when that throws. */
  method IndexSiteAt(db: Database, sites: seq<SiteRow>, i: nat, plan: nat -> nat -> Attempt, now: int, mode: Marking)
    returns (r: Result<()>)
    requires i < |sites|
    modifies db
    ensures r.Ok? ==>
      SitesFrom(db.Value(), sites, i + 1, plan, now, mode) == SitesFrom(old(db.Value()), sites, i, plan, now, mode)
    ensures r.Err? ==>
      Batch(db.Value(), r, i + 1) == SitesFrom(old(db.Value()), sites, i, plan, now, mode)
  {
    var site := new Site.FromRow(sites[i]);
    ghost var before := db.Value();
    var res, tries := ProcessSite(db, site, plan(i), now, mode);
    SitesFromUnfolds(before, sites, i, plan, now, mode, Run(SiteWorld(site.Row(), db.Value()), res, tries));
    if res.Ok? {
      return Ok(());
    }
    Fail(db, site, ProcessingPrefix + res.error.message, now, mode);
    r := Err(Exception(Runtime, IndexingFailedPrefix + SiteFailedMessage(site.url, res.error.message)));
  }

  method StartIndexing(db: Database, plan: nat -> nat -> Attempt, now: int, mode: Marking) returns (r: Result<()>, processed: nat)
    modifies db
    ensures Batch(db.Value(), r, processed) == StartIndexingSpec(old(db.Value()), plan, now, mode)
  {
    var sites := db.sites;
    if sites == [] {
      return Err(Exception(Runtime, IndexingFailedPrefix + NoSitesMessage)), 0;
    }
    ghost var goal := StartIndexingSpec(db.Value(), plan, now, mode);
    processed := 0;
    while processed < |sites|
      invariant processed <= |sites|
      invariant SitesFrom(db.Value(), sites, processed, plan, now, mode) == goal
      decreases |sites| - processed
    {
      var res := IndexSiteAt(db, sites, processed, plan, now, mode);
      if res.Err? {
        return res, processed + 1;
      }
      processed := processed + 1;
    }
    r := Ok(());
  }
}
