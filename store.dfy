/** The four tables the core reads and writes (site, page, lemma, idx), the
    repository calls it makes on them, and the detached Site object the
    services pass around. Every table has an identity primary key: a row saved
    with id 0 (or with an id no row has) is inserted under the next identity
    value, a row saved with a known id replaces that row. */
module Store {
  import opened Common

  /** A row of the `site` table. `statusTime` counts milliseconds. */
  datatype SiteRow = SiteRow(id: nat, url: string, name: string, status: Status, statusTime: int, lastError: string)

  /** A row of the `page` table; `siteId` is None for a page saved without a site. */
  datatype PageRow = PageRow(id: nat, siteId: Option<nat>, path: string, code: int, content: string, title: Option<string>)

  /** A row of the `lemma` table. */
  datatype LemmaRow = LemmaRow(id: nat, siteId: nat, text: string, frequency: nat)

  /** A row of the `idx` table; `idx` is None where the code never sets it. */
  datatype IndexRow = IndexRow(id: nat, pageId: nat, lemmaId: nat, lemmaText: string, rank: nat, idx: Option<nat>)

  // ---------------------------------------------------------------------------
  // Primary keys

  predicate SitesValid(rows: seq<SiteRow>, next: nat) {
    0 < next && (forall i | 0 <= i < |rows| :: 0 < rows[i].id < next) &&
    (forall i, j | 0 <= i < j < |rows| :: rows[i].id != rows[j].id)
  }

  predicate PagesValid(rows: seq<PageRow>, next: nat) {
    0 < next && (forall i | 0 <= i < |rows| :: 0 < rows[i].id < next) &&
    (forall i, j | 0 <= i < j < |rows| :: rows[i].id != rows[j].id)
  }

  predicate LemmasValid(rows: seq<LemmaRow>, next: nat) {
    0 < next && (forall i | 0 <= i < |rows| :: 0 < rows[i].id < next) &&
    (forall i, j | 0 <= i < j < |rows| :: rows[i].id != rows[j].id)
  }

  predicate IndexValid(rows: seq<IndexRow>, next: nat) {
    0 < next && (forall i | 0 <= i < |rows| :: 0 < rows[i].id < next) &&
    (forall i, j | 0 <= i < j < |rows| :: rows[i].id != rows[j].id)
  }

  /** The whole database: four tables and the next value of each identity column. */
  datatype Db = Db(
    sites: seq<SiteRow>, pages: seq<PageRow>, lemmas: seq<LemmaRow>, index: seq<IndexRow>,
    nextSiteId: nat, nextPageId: nat, nextLemmaId: nat, nextIndexId: nat)
  {
    predicate Valid() {
      SitesValid(sites, nextSiteId) && PagesValid(pages, nextPageId) &&
      LemmasValid(lemmas, nextLemmaId) && IndexValid(index, nextIndexId)
    }
  }

  /** A transaction that rolls back restores the tables; identity values already
      handed out are not given back. */
  function RolledBack(after: Db, before: Db): (r: Db)
    ensures r.sites == before.sites && r.pages == before.pages
    ensures r.lemmas == before.lemmas && r.index == before.index
    ensures r.nextSiteId == after.nextSiteId && r.nextPageId == after.nextPageId
    ensures r.nextLemmaId == after.nextLemmaId && r.nextIndexId == after.nextIndexId
  {
    after.(sites := before.sites, pages := before.pages, lemmas := before.lemmas, index := before.index)
  }

  /** Identity values only grow. */
  predicate Advanced(before: Db, after: Db) {
    before.nextSiteId <= after.nextSiteId && before.nextPageId <= after.nextPageId &&
    before.nextLemmaId <= after.nextLemmaId && before.nextIndexId <= after.nextIndexId
  }

  lemma RollbackKeepsValid(after: Db, before: Db)
    requires before.Valid() && Advanced(before, after)
    ensures RolledBack(after, before).Valid()
  {
  }

  // ---------------------------------------------------------------------------
  // Lookups

  /** `siteRepository.findById(id)`: the position of the row with that id. */
  function SiteById(rows: seq<SiteRow>, id: int): (r: Option<nat>)
    ensures r.Some? ==> r.value < |rows| && rows[r.value].id == id
    ensures r.None? ==> forall i | 0 <= i < |rows| :: rows[i].id != id
  {
    if rows == [] then None
    else if rows[0].id == id then Some(0)
    else match SiteById(rows[1..], id)
      case None => None
      case Some(j) => Some(j + 1)
  }

  /** `siteRepository.findByUrl(url)`: the first row with that url. */
  function SiteByUrl(rows: seq<SiteRow>, url: string): (r: Option<nat>)
    ensures r.Some? ==> r.value < |rows| && rows[r.value].url == url
    ensures r.Some? ==> forall i | 0 <= i < r.value :: rows[i].url != url
    ensures r.None? ==> forall i | 0 <= i < |rows| :: rows[i].url != url
  {
    if rows == [] then None
    else if rows[0].url == url then Some(0)
    else match SiteByUrl(rows[1..], url)
      case None => None
      case Some(j) => Some(j + 1)
  }

  /** `siteRepository.findAllByUrl(url)`: every row with that url, in table order. */
  function SitesWithUrl(rows: seq<SiteRow>, url: string): (r: seq<SiteRow>)
    ensures forall s | s in r :: s in rows && s.url == url
    ensures forall s | s in rows && s.url == url :: s in r
  {
    if rows == [] then []
    else (if rows[0].url == url then [rows[0]] else []) + SitesWithUrl(rows[1..], url)
  }

  function PageById(rows: seq<PageRow>, id: int): (r: Option<nat>)
    ensures r.Some? ==> r.value < |rows| && rows[r.value].id == id
    ensures r.None? ==> forall i | 0 <= i < |rows| :: rows[i].id != id
  {
    if rows == [] then None
    else if rows[0].id == id then Some(0)
    else match PageById(rows[1..], id)
      case None => None
      case Some(j) => Some(j + 1)
  }

  function LemmaById(rows: seq<LemmaRow>, id: int): (r: Option<nat>)
    ensures r.Some? ==> r.value < |rows| && rows[r.value].id == id
    ensures r.None? ==> forall i | 0 <= i < |rows| :: rows[i].id != id
  {
    if rows == [] then None
    else if rows[0].id == id then Some(0)
    else match LemmaById(rows[1..], id)
      case None => None
      case Some(j) => Some(j + 1)
  }

  /** `lemmaRepository.findByLemmaText(text)`: the first row with that text,
      whatever its site. */
  function LemmaByText(rows: seq<LemmaRow>, text: string): (r: Option<nat>)
    ensures r.Some? ==> r.value < |rows| && rows[r.value].text == text
    ensures r.Some? ==> forall i | 0 <= i < r.value :: rows[i].text != text
    ensures r.None? ==> forall i | 0 <= i < |rows| :: rows[i].text != text
  {
    if rows == [] then None
    else if rows[0].text == text then Some(0)
    else match LemmaByText(rows[1..], text)
      case None => None
      case Some(j) => Some(j + 1)
  }

  /** The row `findByLemmaText(text)` returns, or None for a Java null. */
  function LemmaWithText(rows: seq<LemmaRow>, text: string): (r: Option<LemmaRow>)
    ensures r.Some? ==> r.value in rows && r.value.text == text
    ensures r.None? <==> forall i | 0 <= i < |rows| :: rows[i].text != text
  {
    match LemmaByText(rows, text)
    case None => None
    case Some(i) => Some(rows[i])
  }

  /** No two lemma rows share a text: the table shape on which Spring Data's
      single-result `findByLemmaText` returns a row rather than throwing. */
  predicate TextsUnique(rows: seq<LemmaRow>) {
    forall i, j | 0 <= i < j < |rows| :: rows[i].text != rows[j].text
  }

  /** On a table with unique texts "the first row with the text" is the only
      one, so the lookup agrees with the single-result query. */
  lemma LemmaByTextUnique(rows: seq<LemmaRow>, text: string, p: nat)
    requires TextsUnique(rows) && p < |rows| && rows[p].text == text
    ensures LemmaByText(rows, text) == Some(p)
  {
    LemmaByTextAt(rows, text, p);
  }

  /** The frequency the lemma table records for a text; 0 when no row has it. */
  function Frequency(rows: seq<LemmaRow>, text: string): nat {
    match LemmaWithText(rows, text)
    case None => 0
    case Some(r) => r.frequency
  }

  /** The first row with a text is the one the lookup finds. */
  lemma LemmaByTextAt(rows: seq<LemmaRow>, text: string, p: nat)
    requires p < |rows| && rows[p].text == text
    requires forall i | 0 <= i < p :: rows[i].text != text
    ensures LemmaByText(rows, text) == Some(p)
  {
  }

  /** Two tables whose rows have the same texts position by position answer
      every lookup by text with the same position. */
  lemma LemmaByTextSameTexts(a: seq<LemmaRow>, b: seq<LemmaRow>)
    requires |a| == |b| && forall i | 0 <= i < |a| :: a[i].text == b[i].text
    ensures forall t :: LemmaByText(a, t) == LemmaByText(b, t)
  {
    forall t ensures LemmaByText(a, t) == LemmaByText(b, t) {
      var pa := LemmaByText(a, t);
      if pa.Some? {
        LemmaByTextAt(b, t, pa.value);
      } else {
        assert forall i | 0 <= i < |b| :: b[i].text != t;
      }
    }
  }

  /** A row appended to the table is found by its text only when no earlier
      row has that text. */
  lemma LemmaByTextAppend(rows: seq<LemmaRow>, r: LemmaRow, text: string)
    ensures LemmaByText(rows + [r], text) ==
      if LemmaByText(rows, text).Some? then LemmaByText(rows, text)
      else if r.text == text then Some(|rows|) else None
  {
    var all := rows + [r];
    var p := LemmaByText(rows, text);
    if p.Some? {
      LemmaByTextAt(all, text, p.value);
    } else if r.text == text {
      LemmaByTextAt(all, text, |rows|);
    } else {
      assert forall i | 0 <= i < |all| :: all[i].text != text;
    }
  }

  /** In a table with valid keys the lookup by id finds the row holding it. */
  lemma SiteByIdAt(rows: seq<SiteRow>, next: nat, p: nat)
    requires SitesValid(rows, next) && p < |rows|
    ensures SiteById(rows, rows[p].id) == Some(p)
  {
    assert forall i | 0 <= i < |rows| && i != p :: rows[i].id != rows[p].id;
  }

  /** In a table with valid keys the lookup by id finds the row holding it. */
  lemma LemmaByIdAt(rows: seq<LemmaRow>, next: nat, p: nat)
    requires LemmasValid(rows, next) && p < |rows|
    ensures LemmaById(rows, rows[p].id) == Some(p)
  {
    assert forall i | 0 <= i < |rows| && i != p :: rows[i].id != rows[p].id;
  }

  function IndexById(rows: seq<IndexRow>, id: int): (r: Option<nat>)
    ensures r.Some? ==> r.value < |rows| && rows[r.value].id == id
    ensures r.None? ==> forall i | 0 <= i < |rows| :: rows[i].id != id
  {
    if rows == [] then None
    else if rows[0].id == id then Some(0)
    else match IndexById(rows[1..], id)
      case None => None
      case Some(j) => Some(j + 1)
  }

  // ---------------------------------------------------------------------------
  // Repository save, table by table

  /** What a unit of work leaves behind: the database after it, and the value
      it returned or the exception it threw. */
  datatype Outcome<T> = Outcome(db: Db, result: Result<T>)

  /** The database after a save and the id the saved row has in it. */
  datatype Write = Write(db: Db, id: nat)

  function SiteSave(db: Db, r: SiteRow): Write {
    var pos := SiteById(db.sites, r.id);
    if r.id != 0 && pos.Some? then Write(db.(sites := db.sites[pos.value := r]), r.id)
    else Write(db.(sites := db.sites + [r.(id := db.nextSiteId)], nextSiteId := db.nextSiteId + 1), db.nextSiteId)
  }

  function PageSave(db: Db, r: PageRow): Write {
    var pos := PageById(db.pages, r.id);
    if r.id != 0 && pos.Some? then Write(db.(pages := db.pages[pos.value := r]), r.id)
    else Write(db.(pages := db.pages + [r.(id := db.nextPageId)], nextPageId := db.nextPageId + 1), db.nextPageId)
  }

  function LemmaSave(db: Db, r: LemmaRow): Write {
    var pos := LemmaById(db.lemmas, r.id);
    if r.id != 0 && pos.Some? then Write(db.(lemmas := db.lemmas[pos.value := r]), r.id)
    else Write(db.(lemmas := db.lemmas + [r.(id := db.nextLemmaId)], nextLemmaId := db.nextLemmaId + 1), db.nextLemmaId)
  }

  function IndexSave(db: Db, r: IndexRow): Write {
    var pos := IndexById(db.index, r.id);
    if r.id != 0 && pos.Some? then Write(db.(index := db.index[pos.value := r]), r.id)
    else Write(db.(index := db.index + [r.(id := db.nextIndexId)], nextIndexId := db.nextIndexId + 1), db.nextIndexId)
  }

  // ---------------------------------------------------------------------------
  // NOT NULL columns

  /** Whether the database refuses a null in a NOT NULL column. The schema
      Hibernate generates from the entities (`hbm2ddl.auto = update`) declares
      `page.siteid` and `idx.idx` NOT NULL, so as deployed it does; the other
      value describes a schema that accepts the nulls. */
  datatype Columns = NotNullEnforced | NullsAccepted

  /** The error the database reports for a null in a NOT NULL column, which
      Spring rethrows as DataIntegrityViolationException. */
  function NotNullViolation(column: string): Exception {
    Exception(DataIntegrityViolation, "Column '" + column + "' cannot be null")
  }

  /** `pageRepository.saveAndFlush(page)`: the insert reaches the database at
      once, and a page without a site is refused there with nothing written. */
  function PageInsert(db: Db, columns: Columns, r: PageRow): (o: Outcome<nat>)
    ensures o.result.Err? <==> columns == NotNullEnforced && r.siteId.None?
    ensures o.result.Err? ==> o.db == db && o.result.error == NotNullViolation("siteid")
    ensures o.result.Ok? ==> Write(o.db, o.result.value) == PageSave(db, r)
  {
    if columns == NotNullEnforced && r.siteId.None? then Outcome(db, Err(NotNullViolation("siteid")))
    else
      var w := PageSave(db, r);
      Outcome(w.db, Ok(w.id))
  }

  /** `indexRepository.save(index)` on an idx row: a row without idx is
      refused with nothing written. */
  function IndexInsert(db: Db, columns: Columns, r: IndexRow): (o: Outcome<nat>)
    ensures o.result.Err? <==> columns == NotNullEnforced && r.idx.None?
    ensures o.result.Err? ==> o.db == db && o.result.error == NotNullViolation("idx")
    ensures o.result.Ok? ==> Write(o.db, o.result.value) == IndexSave(db, r)
  {
    if columns == NotNullEnforced && r.idx.None? then Outcome(db, Err(NotNullViolation("idx")))
    else
      var w := IndexSave(db, r);
      Outcome(w.db, Ok(w.id))
  }

  /** A saved site is found again under the returned id with the saved fields;
      nothing but the site table changes, and the keys stay valid. */
  lemma SiteSaveSpec(db: Db, r: SiteRow)
    requires db.Valid()
    ensures var w := SiteSave(db, r);
      w.db.Valid() && Advanced(db, w.db) &&
      w.db.pages == db.pages && w.db.lemmas == db.lemmas && w.db.index == db.index &&
      (var pos := SiteById(w.db.sites, w.id); pos.Some? && w.db.sites[pos.value] == r.(id := w.id)) &&
      |w.db.sites| >= |db.sites| &&
      forall i | 0 <= i < |db.sites| && db.sites[i].id != w.id :: w.db.sites[i] == db.sites[i]
  {
    var w := SiteSave(db, r);
    var at := SiteById(db.sites, r.id);
    var p := if r.id != 0 && at.Some? then at.value else |db.sites|;
    if r.id != 0 && at.Some? {
      assert w.db.sites == db.sites[p := r] && w.id == r.id == db.sites[p].id;
    } else {
      assert w.db.sites == db.sites + [r.(id := db.nextSiteId)] && w.id == db.nextSiteId;
    }
    assert w.db.sites[p] == r.(id := w.id);
    assert forall i | 0 <= i < |w.db.sites| && i != p :: w.db.sites[i] == db.sites[i];
    assert forall i | 0 <= i < |db.sites| && i != p :: db.sites[i].id != w.id;
    assert forall i | 0 <= i < |w.db.sites| :: 0 < w.db.sites[i].id < w.db.nextSiteId;
    var pos := SiteById(w.db.sites, w.id);
    assert pos.Some? && pos.value == p;
  }

  lemma PageSaveSpec(db: Db, r: PageRow)
    requires db.Valid()
    ensures var w := PageSave(db, r);
      w.db.Valid() && Advanced(db, w.db) &&
      w.db.sites == db.sites && w.db.lemmas == db.lemmas && w.db.index == db.index &&
      (var pos := PageById(w.db.pages, w.id); pos.Some? && w.db.pages[pos.value] == r.(id := w.id)) &&
      |w.db.pages| >= |db.pages| &&
      forall i | 0 <= i < |db.pages| && db.pages[i].id != w.id :: w.db.pages[i] == db.pages[i]
  {
    var w := PageSave(db, r);
    var at := PageById(db.pages, r.id);
    var p := if r.id != 0 && at.Some? then at.value else |db.pages|;
    if r.id != 0 && at.Some? {
      assert w.db.pages == db.pages[p := r] && w.id == r.id == db.pages[p].id;
    } else {
      assert w.db.pages == db.pages + [r.(id := db.nextPageId)] && w.id == db.nextPageId;
    }
    assert w.db.pages[p] == r.(id := w.id);
    assert forall i | 0 <= i < |w.db.pages| && i != p :: w.db.pages[i] == db.pages[i];
    assert forall i | 0 <= i < |db.pages| && i != p :: db.pages[i].id != w.id;
    assert forall i | 0 <= i < |w.db.pages| :: 0 < w.db.pages[i].id < w.db.nextPageId;
    var pos := PageById(w.db.pages, w.id);
    assert pos.Some? && pos.value == p;
  }

  lemma LemmaSaveSpec(db: Db, r: LemmaRow)
    requires db.Valid()
    ensures var w := LemmaSave(db, r);
      w.db.Valid() && Advanced(db, w.db) &&
      w.db.sites == db.sites && w.db.pages == db.pages && w.db.index == db.index &&
      (var pos := LemmaById(w.db.lemmas, w.id); pos.Some? && w.db.lemmas[pos.value] == r.(id := w.id)) &&
      |w.db.lemmas| >= |db.lemmas| &&
      forall i | 0 <= i < |db.lemmas| && db.lemmas[i].id != w.id :: w.db.lemmas[i] == db.lemmas[i]
  {
    var w := LemmaSave(db, r);
    var at := LemmaById(db.lemmas, r.id);
    var p := if r.id != 0 && at.Some? then at.value else |db.lemmas|;
    if r.id != 0 && at.Some? {
      assert w.db.lemmas == db.lemmas[p := r] && w.id == r.id == db.lemmas[p].id;
    } else {
      assert w.db.lemmas == db.lemmas + [r.(id := db.nextLemmaId)] && w.id == db.nextLemmaId;
    }
    assert w.db.lemmas[p] == r.(id := w.id);
    assert forall i | 0 <= i < |w.db.lemmas| && i != p :: w.db.lemmas[i] == db.lemmas[i];
    assert forall i | 0 <= i < |db.lemmas| && i != p :: db.lemmas[i].id != w.id;
    assert forall i | 0 <= i < |w.db.lemmas| :: 0 < w.db.lemmas[i].id < w.db.nextLemmaId;
    var pos := LemmaById(w.db.lemmas, w.id);
    assert pos.Some? && pos.value == p;
  }

  lemma IndexSaveSpec(db: Db, r: IndexRow)
    requires db.Valid()
    ensures var w := IndexSave(db, r);
      w.db.Valid() && Advanced(db, w.db) &&
      w.db.sites == db.sites && w.db.pages == db.pages && w.db.lemmas == db.lemmas &&
      (var pos := IndexById(w.db.index, w.id); pos.Some? && w.db.index[pos.value] == r.(id := w.id)) &&
      |w.db.index| >= |db.index| &&
      forall i | 0 <= i < |db.index| && db.index[i].id != w.id :: w.db.index[i] == db.index[i]
  {
    var w := IndexSave(db, r);
    var at := IndexById(db.index, r.id);
    var p := if r.id != 0 && at.Some? then at.value else |db.index|;
    if r.id != 0 && at.Some? {
      assert w.db.index == db.index[p := r] && w.id == r.id == db.index[p].id;
    } else {
      assert w.db.index == db.index + [r.(id := db.nextIndexId)] && w.id == db.nextIndexId;
    }
    assert w.db.index[p] == r.(id := w.id);
    assert forall i | 0 <= i < |w.db.index| && i != p :: w.db.index[i] == db.index[i];
    assert forall i | 0 <= i < |db.index| && i != p :: db.index[i].id != w.id;
    assert forall i | 0 <= i < |w.db.index| :: 0 < w.db.index[i].id < w.db.nextIndexId;
    var pos := IndexById(w.db.index, w.id);
    assert pos.Some? && pos.value == p;
  }

  /** Saving a row under the id of a stored site replaces that row in place:
      no row is added and no other row changes. */
  lemma SiteSaveReplaces(db: Db, p: nat, r: SiteRow)
    requires db.Valid() && p < |db.sites| && r.id == db.sites[p].id
    ensures SiteSave(db, r) == Write(db.(sites := db.sites[p := r]), r.id)
    ensures SiteSave(db, r).db.Valid()
  {
    SiteByIdAt(db.sites, db.nextSiteId, p);
    var after := db.sites[p := r];
    assert forall i | 0 <= i < |after| :: after[i].id == db.sites[i].id;
  }

  // ---------------------------------------------------------------------------
  // The detached Site object

  /** A Site object held by a service together with the database it is saved
      into. */
  datatype SiteWorld = SiteWorld(site: SiteRow, db: Db)

  /** `siteRepository.save(site)` on an object: an object with id 0 is persisted
      and takes the generated id; any other is merged and keeps its fields. */
  function SiteObjectSave(w: SiteWorld): (r: SiteWorld)
  {
    var saved := SiteSave(w.db, w.site);
    SiteWorld(if w.site.id == 0 then w.site.(id := saved.id) else w.site, saved.db)
  }

  /** searchengine.entity.Site as an object whose fields the services set. */
  class Site {
    var id: nat
    var url: string
    var name: string
    var status: Status
    var statusTime: int
    var lastError: string

    function Row(): SiteRow
      reads this
    {
      SiteRow(id, url, name, status, statusTime, lastError)
    }

    /** An object loaded from a row. */
    constructor FromRow(r: SiteRow)
      ensures Row() == r
    {
      id, url, name, status, statusTime, lastError := r.id, r.url, r.name, r.status, r.statusTime, r.lastError;
    }

    method SetRow(r: SiteRow)
      modifies this
      ensures Row() == r
    {
      id, url, name, status, statusTime, lastError := r.id, r.url, r.name, r.status, r.statusTime, r.lastError;
    }
  }

  // ---------------------------------------------------------------------------
  // The repositories' state

  class Database {
    var sites: seq<SiteRow>
    var pages: seq<PageRow>
    var lemmas: seq<LemmaRow>
    var index: seq<IndexRow>
    var nextSiteId: nat
    var nextPageId: nat
    var nextLemmaId: nat
    var nextIndexId: nat

    function Value(): Db
      reads this
    {
      Db(sites, pages, lemmas, index, nextSiteId, nextPageId, nextLemmaId, nextIndexId)
    }

    ghost predicate Valid()
      reads this
    {
      Value().Valid()
    }

    constructor ()
      ensures Value() == Db([], [], [], [], 1, 1, 1, 1)
      ensures Valid()
    {
      sites, pages, lemmas, index := [], [], [], [];
      nextSiteId, nextPageId, nextLemmaId, nextIndexId := 1, 1, 1, 1;
    }

    /** The state a committed unit of work leaves behind. */
    method Commit(d: Db)
      modifies this
      ensures Value() == d
    {
      sites, pages, lemmas, index := d.sites, d.pages, d.lemmas, d.index;
      nextSiteId, nextPageId, nextLemmaId, nextIndexId := d.nextSiteId, d.nextPageId, d.nextLemmaId, d.nextIndexId;
    }

    /** Rolls the tables back to `before`, keeping the identity values. */
    method Rollback(before: Db)
      modifies this
      ensures Value() == RolledBack(old(Value()), before)
    {
      sites, pages, lemmas, index := before.sites, before.pages, before.lemmas, before.index;
    }

    method SaveSite(r: SiteRow) returns (id: nat)
      modifies this
      ensures Value() == SiteSave(old(Value()), r).db
      ensures id == SiteSave(old(Value()), r).id
    {
      var w := SiteSave(Value(), r);
      Commit(w.db);
      id := w.id;
    }

    method SavePage(r: PageRow) returns (id: nat)
      modifies this
      ensures Value() == PageSave(old(Value()), r).db
      ensures id == PageSave(old(Value()), r).id
    {
      var w := PageSave(Value(), r);
      Commit(w.db);
      id := w.id;
    }

    method SaveLemma(r: LemmaRow) returns (id: nat)
      modifies this
      ensures Value() == LemmaSave(old(Value()), r).db
      ensures id == LemmaSave(old(Value()), r).id
    {
      var w := LemmaSave(Value(), r);
      Commit(w.db);
      id := w.id;
    }

    method SaveIndex(r: IndexRow) returns (id: nat)
      modifies this
      ensures Value() == IndexSave(old(Value()), r).db
      ensures id == IndexSave(old(Value()), r).id
    {
      var w := IndexSave(Value(), r);
      Commit(w.db);
      id := w.id;
    }

    method InsertPage(columns: Columns, r: PageRow) returns (res: Result<nat>)
      modifies this
      ensures Outcome(Value(), res) == PageInsert(old(Value()), columns, r)
    {
      if columns == NotNullEnforced && r.siteId.None? {
        return Err(NotNullViolation("siteid"));
      }
      var id := SavePage(r);
      res := Ok(id);
    }

    method InsertIndex(columns: Columns, r: IndexRow) returns (res: Result<nat>)
      modifies this
      ensures Outcome(Value(), res) == IndexInsert(old(Value()), columns, r)
    {
      if columns == NotNullEnforced && r.idx.None? {
        return Err(NotNullViolation("idx"));
      }
      var id := SaveIndex(r);
      res := Ok(id);
    }

    /** `siteRepository.save(site)` on a detached object. */
    method SaveSiteObject(site: Site)
      modifies this, site
      ensures SiteWorld(site.Row(), Value()) == SiteObjectSave(SiteWorld(old(site.Row()), old(Value())))
    {
      var id := SaveSite(site.Row());
      if site.id == 0 {
        site.id := id;
      }
    }
  }
}
