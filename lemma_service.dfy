/** LemmaService: the indexing write path. `processLemmas` splits a page's
    cleaned text on runs of non-word characters, keeps the words that are all
    letters once their digits are gone and at least three long, counts them,
    and then for each distinct lemma upserts a row of the lemma table (looked
    up by text alone) and appends one row to the idx table. */
module LemmaService {
  import opened Common
  import opened Text
  import opened Store

  const MinLemmaLength: nat := 3

  // ---------------------------------------------------------------------------
  // From words to lemmas

  /** `matches("^[\\p{L}]+$")` on a word whose digits are gone. The word is a
      piece of `split("\\W+")`, so it holds only A-Z, a-z and '_', and on those
      `\p{L}` is exactly the ASCII letters. */
  predicate AllLetters(s: string) {
    |s| > 0 && forall i | 0 <= i < |s| :: IsAsciiLetter(s[i])
  }

  /** The lemma one word yields, or None when the loop skips it with `continue`. */
  function WordLemma(word: string): (r: Option<string>)
    ensures r.Some? ==> r.value == ToLower(RemoveDigits(word))
    ensures r.Some? ==> |r.value| >= MinLemmaLength && forall i | 0 <= i < |r.value| :: IsAsciiLower(r.value[i])
    ensures r.None? ==> !AllLetters(RemoveDigits(word)) || |RemoveDigits(word)| < MinLemmaLength
  {
    if word == "" then None
    else
      var cleaned := RemoveDigits(word);
      if !AllLetters(cleaned) then None
      else if |cleaned| < MinLemmaLength then None
      else Some(ToLower(cleaned))
  }

  /** A digit between two runs of letters is deleted and the runs are joined:
      "ab1cd" yields the lemma "abcd". */
  lemma WordLemmaJoinsDigits(a: string, d: char, b: string)
    requires IsAsciiDigit(d)
    requires forall i | 0 <= i < |a| :: IsAsciiLetter(a[i])
    requires forall i | 0 <= i < |b| :: IsAsciiLetter(b[i])
    requires |a| + |b| >= MinLemmaLength
    ensures WordLemma(a + [d] + b) == Some(ToLower(a + b))
  {
    DigitsInsideAreJoined(a, d, b);
    RemoveDigitsNoDigits(a);
    RemoveDigitsNoDigits(b);
    assert AllLetters(a + b);
  }

  /** A word holding an underscore is never a lemma, and neither is one with
      fewer than three characters left once its digits are gone. */
  lemma WordLemmaRejects(word: string)
    requires '_' in word || |RemoveDigits(word)| < MinLemmaLength
    ensures WordLemma(word).None?
  {
    if '_' in word {
      var i :| 0 <= i < |word| && word[i] == '_';
      RemoveDigitsKeeps(word, i);
      var cleaned := RemoveDigits(word);
      assert !AllLetters(cleaned) by {
        var j :| 0 <= j < |cleaned| && cleaned[j] == '_';
      }
    }
  }

  /** A non-digit character of a word survives the removal of digits. */
  lemma {:induction false} RemoveDigitsKeeps(s: string, i: nat)
    requires i < |s| && !IsAsciiDigit(s[i])
    ensures s[i] in RemoveDigits(s)
  {
    if i > 0 {
      RemoveDigitsKeeps(s[1..], i - 1);
    }
  }

  /** The lemmas of a list of words, in order, one per kept word. */
  function Accepted(words: seq<string>): (r: seq<string>)
    ensures |r| <= |words|
    ensures forall l | l in r :: exists w | w in words :: WordLemma(w) == Some(l)
    ensures forall w | w in words && WordLemma(w).Some? :: WordLemma(w).value in r
  {
    if words == [] then []
    else
      var init := words[..|words| - 1];
      var last := words[|words| - 1];
      assert words == init + [last];
      match WordLemma(last)
      case Some(l) => Accepted(init) + [l]
      case None => Accepted(init)
  }

  /** The lemmas the first loop counts: the words of `split("\\W+")` that are
      kept. */
  function AcceptedLemmas(text: string): seq<string> {
    Accepted(Split(text, NonWord))
  }

  /** Every counted lemma is a lower-case ASCII word of three or more letters
      made from a piece of the split, and every piece that passes the filter is
      counted. */
  lemma AcceptedLemmasSpec(text: string)
    ensures forall l | l in AcceptedLemmas(text) ::
      |l| >= MinLemmaLength && (forall i | 0 <= i < |l| :: IsAsciiLower(l[i])) &&
      exists w | w in Split(text, NonWord) :: l == ToLower(RemoveDigits(w))
    ensures forall w | w in Split(text, NonWord) && AllLetters(RemoveDigits(w)) && |RemoveDigits(w)| >= MinLemmaLength ::
      ToLower(RemoveDigits(w)) in AcceptedLemmas(text)
  {
    forall l | l in AcceptedLemmas(text)
      ensures exists w | w in Split(text, NonWord) :: l == ToLower(RemoveDigits(w))
    {
      var w :| w in Split(text, NonWord) && WordLemma(w) == Some(l);
    }
  }

  // ---------------------------------------------------------------------------
  // The lemmaCount map

  /** `lemmaCount` after the first loop: `put(l, getOrDefault(l, 0) + 1)` for
      each lemma in turn. */
  function Tally(lemmas: seq<string>): map<string, nat> {
    if lemmas == [] then map[]
    else
      var m := Tally(lemmas[..|lemmas| - 1]);
      var l := lemmas[|lemmas| - 1];
      m[l := (if l in m then m[l] else 0) + 1]
  }

  /** The map holds a key for each lemma seen, and its value is how often the
      lemma occurs. */
  lemma {:induction false} TallySpec(lemmas: seq<string>)
    ensures forall l :: l in Tally(lemmas) <==> l in lemmas
    ensures forall l | l in Tally(lemmas) :: Tally(lemmas)[l] == multiset(lemmas)[l]
  {
    if lemmas != [] {
      var init := lemmas[..|lemmas| - 1];
      TallySpec(init);
      assert lemmas == init + [lemmas[|lemmas| - 1]];
    }
  }

  function Get(m: map<string, nat>, key: string): nat {
    if key in m then m[key] else 0
  }

  /** The sum of the values stored under `keys`. */
  function Total(keys: seq<string>, m: map<string, nat>): nat {
    if keys == [] then 0 else Total(keys[..|keys| - 1], m) + Get(m, keys[|keys| - 1])
  }

  lemma {:induction false} TotalUpdate(keys: seq<string>, m: map<string, nat>, key: string, v: nat)
    requires NoDuplicates(keys)
    ensures Total(keys, m[key := v]) == Total(keys, m) + (if key in keys then v - Get(m, key) else 0)
  {
    if keys != [] {
      var init := keys[..|keys| - 1];
      assert keys == init + [keys[|keys| - 1]];
      TotalUpdate(init, m, key, v);
    }
  }

  /** The counts add up to the number of words the loop accepted. */
  lemma {:induction false} CountsSumToAccepted(lemmas: seq<string>)
    ensures Total(Distinct(lemmas), Tally(lemmas)) == |lemmas|
  {
    if lemmas != [] {
      var init := lemmas[..|lemmas| - 1];
      var l := lemmas[|lemmas| - 1];
      CountsSumToAccepted(init);
      DistinctSpec(init);
      TallySpec(init);
      var m := Tally(init);
      var d := Distinct(init);
      TotalUpdate(d, m, l, Get(m, l) + 1);
      if l !in d {
        assert Distinct(lemmas) == d + [l];
        assert (d + [l])[..|d|] == d;
        assert l !in m;
      }
    }
  }

  /** One more word either adds its lemma at the end or is skipped. */
  lemma AcceptedPrefix(words: seq<string>, i: nat)
    requires i < |words|
    ensures WordLemma(words[i]).None? ==> Accepted(words[..i + 1]) == Accepted(words[..i])
    ensures WordLemma(words[i]).Some? ==> Accepted(words[..i + 1]) == Accepted(words[..i]) + [WordLemma(words[i]).value]
  {
    assert words[..i + 1][..i] == words[..i];
  }

  /** One more lemma: the map counts it once more, and the key order gains it
      when it is new. */
  lemma CountOneMore(lemmas: seq<string>, l: string)
    ensures Tally(lemmas + [l]) == Tally(lemmas)[l := Get(Tally(lemmas), l) + 1]
    ensures Distinct(lemmas + [l]) == if l in Distinct(lemmas) then Distinct(lemmas) else Distinct(lemmas) + [l]
  {
    assert (lemmas + [l])[..|lemmas|] == lemmas;
  }

  /** The first loop: counts the kept lemmas into `counts`, whose keys `order`
      lists in the order they were first put. */
  method CountLemmas(words: seq<string>) returns (order: seq<string>, counts: map<string, nat>)
    ensures order == Distinct(Accepted(words))
    ensures counts == Tally(Accepted(words))
  {
    order, counts := [], map[];
    ghost var seen: seq<string> := [];
    for i := 0 to |words|
      invariant seen == Accepted(words[..i])
      invariant order == Distinct(seen) && counts == Tally(seen)
    {
      AcceptedPrefix(words, i);
      var word := words[i];
      if word == "" {
        continue;
      }
      var cleaned := RemoveDigits(word);
      if !AllLetters(cleaned) {
        continue;
      }
      if |cleaned| < MinLemmaLength {
        continue;
      }
      var lemmaText := ToLower(cleaned);
      assert WordLemma(word) == Some(lemmaText);
      CountOneMore(seen, lemmaText);
      seen := seen + [lemmaText];
      if lemmaText !in order {
        order := order + [lemmaText];
      }
      counts := counts[lemmaText := Get(counts, lemmaText) + 1];
    }
    assert words[..|words|] == words;
  }

  // ---------------------------------------------------------------------------
  // saveLemma

  function SiteMissingMessage(siteId: int): string {
    "Сайт с ID " + IntToString(siteId) + " не существует"
  }

  function SaveLemmaFailedMessage(text: string, siteId: int, cause: string): string {
    "Ошибка при сохранении леммы " + text + " для сайта с ID " + IntToString(siteId) + ": " + cause
  }

  function ProcessFailedMessage(pageId: int, cause: string): string {
    "Ошибка при обработке лемм для страницы с ID " + IntToString(pageId) + ": " + cause
  }

  /** `saveLemma(text, siteId)`: the lemma row found by text alone gets its
      frequency raised by one, or a row with frequency 1 is created for the
      site; a missing site is reported as a RuntimeException. */
  function SaveLemmaSpec(db: Db, text: string, siteId: int): Outcome<LemmaRow> {
    match SiteById(db.sites, siteId)
    case None =>
      Outcome(db, Err(Exception(Runtime, SaveLemmaFailedMessage(text, siteId, SiteMissingMessage(siteId)))))
    case Some(s) =>
      var row := match LemmaWithText(db.lemmas, text)
        case None => LemmaRow(0, db.sites[s].id, text, 1)
        case Some(found) => found.(frequency := found.frequency + 1);
      var w := LemmaSave(db, row);
      Outcome(w.db, Ok(row.(id := w.id)))
  }

  /** Saving fails exactly when no site has the id; the failure is always a
      RuntimeException carrying the IllegalArgumentException's message, and
      nothing is written. */
  lemma SaveLemmaFails(db: Db, text: string, siteId: int)
    ensures SaveLemmaSpec(db, text, siteId).result.Err? <==> SiteById(db.sites, siteId).None?
    ensures SaveLemmaSpec(db, text, siteId).result.Err? ==>
      SaveLemmaSpec(db, text, siteId).db == db &&
      SaveLemmaSpec(db, text, siteId).result.error ==
        Exception(Runtime, SaveLemmaFailedMessage(text, siteId, SiteMissingMessage(siteId)))
  {
  }

  /** With the site present, the row the lookup by text now finds is the one
      returned; its frequency is one more than before, whatever the site of an
      existing row; a row is created, for the given site, only when none had
      the text; every other text finds what it found before, and only the lemma
      table changes. */
  lemma SaveLemmaUpserts(db: Db, text: string, siteId: int)
    requires db.Valid() && SiteById(db.sites, siteId).Some?
    ensures var o := SaveLemmaSpec(db, text, siteId);
      o.result.Ok? && o.db.Valid() && Advanced(db, o.db) &&
      o.db.sites == db.sites && o.db.pages == db.pages && o.db.index == db.index &&
      LemmaWithText(o.db.lemmas, text) == Some(o.result.value) &&
      o.result.value.frequency == Frequency(db.lemmas, text) + 1 &&
      (LemmaWithText(db.lemmas, text).None? ==>
        o.result.value.siteId == siteId && |o.db.lemmas| == |db.lemmas| + 1) &&
      (LemmaWithText(db.lemmas, text).Some? ==>
        o.result.value == LemmaWithText(db.lemmas, text).value.(frequency := o.result.value.frequency) &&
        |o.db.lemmas| == |db.lemmas|) &&
      forall t | t != text :: LemmaWithText(o.db.lemmas, t) == LemmaWithText(db.lemmas, t)
  {
    var o := SaveLemmaSpec(db, text, siteId);
    var p := LemmaByText(db.lemmas, text);
    if p.None? {
      SaveLemmaCreates(db, text, siteId);
      var row := o.result.value;
      forall t ensures LemmaByText(o.db.lemmas, t) ==
        if LemmaByText(db.lemmas, t).Some? then LemmaByText(db.lemmas, t)
        else if row.text == t then Some(|db.lemmas|) else None
      {
        LemmaByTextAppend(db.lemmas, row, t);
      }
    } else {
      SaveLemmaIncrements(db, text, siteId);
      LemmaByTextSameTexts(o.db.lemmas, db.lemmas);
    }
  }

  /** The create branch: one row appended under the next id. */
  lemma SaveLemmaCreates(db: Db, text: string, siteId: int)
    requires db.Valid() && SiteById(db.sites, siteId).Some? && LemmaByText(db.lemmas, text).None?
    ensures var o := SaveLemmaSpec(db, text, siteId);
      o.result == Ok(LemmaRow(db.nextLemmaId, siteId, text, 1)) &&
      o.db == db.(lemmas := db.lemmas + [o.result.value], nextLemmaId := db.nextLemmaId + 1) &&
      o.db.Valid()
  {
    LemmaSaveSpec(db, LemmaRow(0, siteId, text, 1));
  }

  /** The upsert never gives a second row to a text: a lemma table whose texts
      are unique keeps them unique. */
  lemma SaveLemmaKeepsTextsUnique(db: Db, text: string, siteId: int)
    requires db.Valid() && TextsUnique(db.lemmas)
    ensures TextsUnique(SaveLemmaSpec(db, text, siteId).db.lemmas)
  {
    if SiteById(db.sites, siteId).Some? {
      if LemmaByText(db.lemmas, text).None? {
        SaveLemmaCreates(db, text, siteId);
      } else {
        SaveLemmaIncrements(db, text, siteId);
        var after := SaveLemmaSpec(db, text, siteId).db.lemmas;
        assert forall i | 0 <= i < |after| :: after[i].text == db.lemmas[i].text;
      }
    }
  }

  /** The update branch: the row found keeps its place, id and site. */
  lemma SaveLemmaIncrements(db: Db, text: string, siteId: int)
    requires db.Valid() && SiteById(db.sites, siteId).Some? && LemmaByText(db.lemmas, text).Some?
    ensures var p := LemmaByText(db.lemmas, text).value;
      var row := db.lemmas[p].(frequency := db.lemmas[p].frequency + 1);
      var o := SaveLemmaSpec(db, text, siteId);
      o.result == Ok(row) && o.db == db.(lemmas := db.lemmas[p := row]) && o.db.Valid()
  {
    var p := LemmaByText(db.lemmas, text).value;
    var row := db.lemmas[p].(frequency := db.lemmas[p].frequency + 1);
    LemmaByIdAt(db.lemmas, db.nextLemmaId, p);
    LemmaSaveSpec(db, row);
  }

  /** `saveLemma(text, siteId)`. */
  method SaveLemma(db: Database, text: string, siteId: int) returns (r: Result<LemmaRow>)
    modifies db
    ensures Outcome(db.Value(), r) == SaveLemmaSpec(old(db.Value()), text, siteId)
  {
    var s := SiteById(db.sites, siteId);
    if s.None? {
      return Err(Exception(Runtime, SaveLemmaFailedMessage(text, siteId, SiteMissingMessage(siteId))));
    }
    var found := LemmaWithText(db.lemmas, text);
    var row: LemmaRow;
    if found.None? {
      row := LemmaRow(0, db.sites[s.value].id, text, 1);
    } else {
      row := found.value.(frequency := found.value.frequency + 1);
    }
    var id := db.SaveLemma(row);
    r := Ok(row.(id := id));
  }

  /** `saveOrUpdateLemma(text, site)`: `saveLemma` with the site's id. */
  method SaveOrUpdateLemma(db: Database, text: string, site: SiteRow) returns (r: Result<LemmaRow>)
    modifies db
    ensures Outcome(db.Value(), r) == SaveLemmaSpec(old(db.Value()), text, site.id)
  {
    r := SaveLemma(db, text, site.id);
  }

  // ---------------------------------------------------------------------------
  // processLemmas

  /** One pass of the second loop: upsert the lemma, then append its idx row
      with the count as rank; `idx` is the value the row's idx column gets
      (1 here, unset in the manual indexing of PageService). */
  function SaveEntry(db: Db, pageId: nat, siteId: int, text: string, count: nat, idx: Option<nat>): Outcome<()> {
    var saved := SaveLemmaSpec(db, text, siteId);
    if saved.result.Err? then Outcome(saved.db, Err(saved.result.error))
    else Outcome(IndexSave(saved.db, IndexRow(0, pageId, saved.result.value.id, text, count, idx)).db, Ok(()))
  }

  /** The second loop from the entry `order[0]` on; the first failure ends it. */
  function SaveEntries(db: Db, pageId: nat, siteId: int, order: seq<string>, counts: map<string, nat>, idx: Option<nat>): Outcome<()>
    decreases |order|
  {
    if order == [] then Outcome(db, Ok(()))
    else
      var e := SaveEntry(db, pageId, siteId, order[0], Get(counts, order[0]), idx);
      if e.result.Err? then e else SaveEntries(e.db, pageId, siteId, order[1..], counts, idx)
  }

  /** `processLemmas(page, text, site)` on a page with id `pageId` and a site
      with id `siteId`. The map's entries are visited in the order their keys
      were first put. */
  function ProcessLemmasSpec(db: Db, pageId: nat, text: string, siteId: int): Outcome<()> {
    var lemmas := AcceptedLemmas(text);
    var o := SaveEntries(db, pageId, siteId, Distinct(lemmas), Tally(lemmas), Some(1));
    if o.result.Ok? then o
    else Outcome(o.db, Err(Exception(Runtime, ProcessFailedMessage(pageId, o.result.error.message))))
  }

  /** The idx row written for one lemma of a page: the page, the lemma's text,
      the count as rank, the idx value, and the id of the lemma row a lookup by
      that text finds. */
  predicate IndexedAs(row: IndexRow, pageId: nat, text: string, rank: nat, idx: Option<nat>, lemmas: seq<LemmaRow>) {
    row.pageId == pageId && row.lemmaText == text && row.rank == rank && row.idx == idx &&
    LemmaWithText(lemmas, text).Some? && row.lemmaId == LemmaWithText(lemmas, text).value.id
  }

  /** `after`'s idx table is `before` followed by one row per distinct word of
      `words`, in first-occurrence order, for the page, each with the word's
      number of occurrences as rank. */
  predicate IndexedBatch(before: seq<IndexRow>, after: Db, pageId: nat, words: seq<string>, idx: Option<nat>) {
    |after.index| == |before| + |Distinct(words)| && after.index[..|before|] == before &&
    forall k | 0 <= k < |Distinct(words)| ::
      IndexedAs(after.index[|before| + k], pageId, Distinct(words)[k], multiset(words)[Distinct(words)[k]], idx, after.lemmas)
  }

  /** With the site missing the loop stops at its first entry; with the site
      present it never fails. */
  lemma {:induction false} SaveEntriesOutcome(db: Db, pageId: nat, siteId: int, order: seq<string>, counts: map<string, nat>, idx: Option<nat>)
    ensures var o := SaveEntries(db, pageId, siteId, order, counts, idx);
      (SiteById(db.sites, siteId).Some? || order == [] ==> o.result.Ok? && o.db.sites == db.sites) &&
      (SiteById(db.sites, siteId).None? && order != [] ==>
        o.db == db &&
        o.result == Err(Exception(Runtime, SaveLemmaFailedMessage(order[0], siteId, SiteMissingMessage(siteId)))))
    decreases |order|
  {
    if order != [] && SiteById(db.sites, siteId).Some? {
      var e := SaveEntry(db, pageId, siteId, order[0], Get(counts, order[0]), idx);
      assert e.result.Ok? && e.db.sites == db.sites;
      SaveEntriesOutcome(e.db, pageId, siteId, order[1..], counts, idx);
    }
  }

  /** One pass with the site present: the lemma row for the text is upserted
      and an idx row pointing at it is appended. */
  lemma SaveEntryWrites(db: Db, pageId: nat, siteId: int, text: string, count: nat, idx: Option<nat>)
    requires db.Valid() && SiteById(db.sites, siteId).Some?
    ensures var e := SaveEntry(db, pageId, siteId, text, count, idx);
      e.result.Ok? && e.db.Valid() && Advanced(db, e.db) &&
      e.db.sites == db.sites && e.db.pages == db.pages &&
      LemmaWithText(e.db.lemmas, text).Some? &&
      e.db.index == db.index + [IndexRow(db.nextIndexId, pageId, LemmaWithText(e.db.lemmas, text).value.id, text, count, idx)] &&
      Frequency(e.db.lemmas, text) == Frequency(db.lemmas, text) + 1 &&
      forall t | t != text :: LemmaWithText(e.db.lemmas, t) == LemmaWithText(db.lemmas, t)
  {
    var saved := SaveLemmaSpec(db, text, siteId);
    SaveLemmaUpserts(db, text, siteId);
    var row := IndexRow(0, pageId, saved.result.value.id, text, count, idx);
    IndexSaveSpec(saved.db, row);
  }

  /** A list without duplicates loses its first element from its tail. */
  lemma HeadNotInTail(order: seq<string>)
    requires order != [] && NoDuplicates(order)
    ensures order[0] !in order[1..] && NoDuplicates(order[1..])
  {
    forall k | 0 <= k < |order[1..]| ensures order[1..][k] != order[0] {
      assert order[0] != order[k + 1];
    }
  }

  /** With the site present and distinct lemmas, the loop raises the frequency
      of each lemma by exactly one, leaves every other text's lemma row alone,
      keeps the keys valid and touches neither the site nor the page table. */
  lemma {:induction false} SaveEntriesLemmas(db: Db, pageId: nat, siteId: int, order: seq<string>, counts: map<string, nat>, idx: Option<nat>)
    requires db.Valid() && SiteById(db.sites, siteId).Some? && NoDuplicates(order)
    ensures var o := SaveEntries(db, pageId, siteId, order, counts, idx);
      o.result.Ok? && o.db.Valid() && Advanced(db, o.db) &&
      o.db.sites == db.sites && o.db.pages == db.pages &&
      (forall l | l in order :: Frequency(o.db.lemmas, l) == Frequency(db.lemmas, l) + 1) &&
      (forall t | t !in order :: LemmaWithText(o.db.lemmas, t) == LemmaWithText(db.lemmas, t))
    decreases |order|
  {
    if order != [] {
      var x := order[0];
      var e := SaveEntry(db, pageId, siteId, x, Get(counts, x), idx);
      SaveEntryWrites(db, pageId, siteId, x, Get(counts, x), idx);
      HeadNotInTail(order);
      SaveEntriesLemmas(e.db, pageId, siteId, order[1..], counts, idx);
      var o := SaveEntries(db, pageId, siteId, order, counts, idx);
      assert o == SaveEntries(e.db, pageId, siteId, order[1..], counts, idx);
      forall l | l in order ensures Frequency(o.db.lemmas, l) == Frequency(db.lemmas, l) + 1 {
        if l != x {
          assert l in order[1..];
        }
      }
    }
  }

  /** The idx rows written for a list of lemmas, one per lemma in the same
      order. */
  predicate RowsFor(rows: seq<IndexRow>, pageId: nat, order: seq<string>, counts: map<string, nat>, idx: Option<nat>, lemmas: seq<LemmaRow>) {
    |rows| == |order| &&
    forall k | 0 <= k < |rows| :: IndexedAs(rows[k], pageId, order[k], Get(counts, order[k]), idx, lemmas)
  }

  lemma RowsForCons(row: IndexRow, rows: seq<IndexRow>, pageId: nat, order: seq<string>, counts: map<string, nat>, idx: Option<nat>, lemmas: seq<LemmaRow>)
    requires order != []
    requires IndexedAs(row, pageId, order[0], Get(counts, order[0]), idx, lemmas)
    requires RowsFor(rows, pageId, order[1..], counts, idx, lemmas)
    ensures RowsFor([row] + rows, pageId, order, counts, idx, lemmas)
  {
    forall k | 0 <= k < |[row] + rows|
      ensures IndexedAs(([row] + rows)[k], pageId, order[k], Get(counts, order[k]), idx, lemmas)
    {
      if k > 0 {
        assert ([row] + rows)[k] == rows[k - 1];
        assert order[k] == order[1..][k - 1];
      }
    }
  }

  /** With the site present and distinct lemmas, the loop appends one idx row
      per lemma, in order, after every earlier row. */
  lemma {:induction false} SaveEntriesIndex(db: Db, pageId: nat, siteId: int, order: seq<string>, counts: map<string, nat>, idx: Option<nat>)
    requires db.Valid() && SiteById(db.sites, siteId).Some? && NoDuplicates(order)
    ensures var o := SaveEntries(db, pageId, siteId, order, counts, idx);
      |db.index| <= |o.db.index| && o.db.index[..|db.index|] == db.index &&
      RowsFor(o.db.index[|db.index|..], pageId, order, counts, idx, o.db.lemmas)
    decreases |order|
  {
    var o := SaveEntries(db, pageId, siteId, order, counts, idx);
    if order == [] {
      assert o.db.index[|db.index|..] == [];
    } else {
      var x := order[0];
      var rest := order[1..];
      var e := SaveEntry(db, pageId, siteId, x, Get(counts, x), idx);
      SaveEntryAppendsRow(db, pageId, siteId, x, Get(counts, x), idx);
      HeadNotInTail(order);
      SaveEntriesIndex(e.db, pageId, siteId, rest, counts, idx);
      SaveEntriesKeepText(e.db, pageId, siteId, rest, counts, idx, x);
      assert o == SaveEntries(e.db, pageId, siteId, rest, counts, idx);
      BatchStep(db.index, e.db.index, o.db.index, o.db.lemmas, pageId, order, counts, idx);
    }
  }

  /** One row for the first lemma followed by the rows for the others are the
      rows for the whole list. */
  lemma BatchStep(before: seq<IndexRow>, mid: seq<IndexRow>, after: seq<IndexRow>, lemmas: seq<LemmaRow>,
                  pageId: nat, order: seq<string>, counts: map<string, nat>, idx: Option<nat>)
    requires order != []
    requires |mid| == |before| + 1 && mid[..|before|] == before
    requires IndexedAs(mid[|before|], pageId, order[0], Get(counts, order[0]), idx, lemmas)
    requires |mid| <= |after| && after[..|mid|] == mid
    requires RowsFor(after[|mid|..], pageId, order[1..], counts, idx, lemmas)
    ensures |before| <= |after| && after[..|before|] == before
    ensures RowsFor(after[|before|..], pageId, order, counts, idx, lemmas)
  {
    assert after[..|before|] == mid[..|before|];
    assert after[|before|..] == [mid[|before|]] + after[|mid|..];
    RowsForCons(mid[|before|], after[|mid|..], pageId, order, counts, idx, lemmas);
  }

  /** One pass, as the idx batch sees it. */
  lemma SaveEntryAppendsRow(db: Db, pageId: nat, siteId: int, text: string, count: nat, idx: Option<nat>)
    requires db.Valid() && SiteById(db.sites, siteId).Some?
    ensures var e := SaveEntry(db, pageId, siteId, text, count, idx);
      e.result.Ok? && e.db.Valid() && e.db.sites == db.sites &&
      LemmaWithText(e.db.lemmas, text).Some? &&
      e.db.index == db.index + [IndexRow(db.nextIndexId, pageId, LemmaWithText(e.db.lemmas, text).value.id, text, count, idx)]
  {
    SaveEntryWrites(db, pageId, siteId, text, count, idx);
  }

  /** The loop leaves the lemma row of a text it does not visit alone. */
  lemma SaveEntriesKeepText(db: Db, pageId: nat, siteId: int, order: seq<string>, counts: map<string, nat>, idx: Option<nat>, t: string)
    requires db.Valid() && SiteById(db.sites, siteId).Some? && NoDuplicates(order) && t !in order
    ensures LemmaWithText(SaveEntries(db, pageId, siteId, order, counts, idx).db.lemmas, t) == LemmaWithText(db.lemmas, t)
  {
    SaveEntriesLemmas(db, pageId, siteId, order, counts, idx);
  }

  /** processLemmas fails exactly when the site is missing and the text has a
      lemma; then it writes nothing and throws a RuntimeException wrapping
      saveLemma's message for the first lemma. */
  lemma ProcessLemmasFails(db: Db, pageId: nat, text: string, siteId: int)
    ensures var o := ProcessLemmasSpec(db, pageId, text, siteId);
      (o.result.Err? <==> SiteById(db.sites, siteId).None? && AcceptedLemmas(text) != []) &&
      (o.result.Err? ==>
        o.db == db &&
        o.result.error == Exception(Runtime, ProcessFailedMessage(pageId,
          SaveLemmaFailedMessage(Distinct(AcceptedLemmas(text))[0], siteId, SiteMissingMessage(siteId)))))
  {
    var lemmas := AcceptedLemmas(text);
    DistinctSpec(lemmas);
    if lemmas != [] {
      assert lemmas[0] in Distinct(lemmas);
    }
    SaveEntriesOutcome(db, pageId, siteId, Distinct(lemmas), Tally(lemmas), Some(1));
  }

  /** With the site present, processLemmas succeeds, keeps the database valid
      and leaves the site and page tables alone. */
  lemma ProcessLemmasSucceeds(db: Db, pageId: nat, text: string, siteId: int)
    requires db.Valid() && SiteById(db.sites, siteId).Some?
    ensures ProcessLemmasSpec(db, pageId, text, siteId).result.Ok?
    ensures ProcessLemmasSpec(db, pageId, text, siteId).db.Valid()
    ensures ProcessLemmasSpec(db, pageId, text, siteId).db.sites == db.sites
    ensures ProcessLemmasSpec(db, pageId, text, siteId).db.pages == db.pages
  {
    var lemmas := AcceptedLemmas(text);
    DistinctSpec(lemmas);
    SaveEntriesLemmas(db, pageId, siteId, Distinct(lemmas), Tally(lemmas), Some(1));
  }

  /** With the site present, processLemmas raises the frequency of each lemma
      of the text by exactly one, however often it occurs, and leaves every
      other lemma row alone. */
  lemma ProcessLemmasCountsPages(db: Db, pageId: nat, text: string, siteId: int)
    requires db.Valid() && SiteById(db.sites, siteId).Some?
    ensures forall l | l in AcceptedLemmas(text) ::
      Frequency(ProcessLemmasSpec(db, pageId, text, siteId).db.lemmas, l) == Frequency(db.lemmas, l) + 1
    ensures forall t | t !in AcceptedLemmas(text) ::
      LemmaWithText(ProcessLemmasSpec(db, pageId, text, siteId).db.lemmas, t) == LemmaWithText(db.lemmas, t)
  {
    var lemmas := AcceptedLemmas(text);
    DistinctSpec(lemmas);
    SaveEntriesLemmas(db, pageId, siteId, Distinct(lemmas), Tally(lemmas), Some(1));
  }

  /** With the site present, processLemmas keeps the earlier idx rows and
      appends one row per distinct lemma of the text, in first-occurrence order,
      its rank the number of times the lemma occurs. */
  lemma ProcessLemmasIndexes(db: Db, pageId: nat, text: string, siteId: int)
    requires db.Valid() && SiteById(db.sites, siteId).Some?
    ensures IndexedBatch(db.index, ProcessLemmasSpec(db, pageId, text, siteId).db, pageId, AcceptedLemmas(text), Some(1))
  {
    var lemmas := AcceptedLemmas(text);
    var o := SaveEntries(db, pageId, siteId, Distinct(lemmas), Tally(lemmas), Some(1));
    DistinctSpec(lemmas);
    SaveEntriesLemmas(db, pageId, siteId, Distinct(lemmas), Tally(lemmas), Some(1));
    SaveEntriesIndex(db, pageId, siteId, Distinct(lemmas), Tally(lemmas), Some(1));
    assert ProcessLemmasSpec(db, pageId, text, siteId) == o;
    RanksAreOccurrences(o.db.index, |db.index|, pageId, lemmas, Some(1), o.db.lemmas);
  }

  /** Rows ranked by the tally are ranked by each lemma's number of occurrences. */
  lemma RanksAreOccurrences(all: seq<IndexRow>, from: nat, pageId: nat, lemmas: seq<string>, idx: Option<nat>, table: seq<LemmaRow>)
    requires from <= |all|
    requires RowsFor(all[from..], pageId, Distinct(lemmas), Tally(lemmas), idx, table)
    ensures |all| == from + |Distinct(lemmas)|
    ensures forall k | 0 <= k < |Distinct(lemmas)| ::
      IndexedAs(all[from + k], pageId, Distinct(lemmas)[k], multiset(lemmas)[Distinct(lemmas)[k]], idx, table)
  {
    var order := Distinct(lemmas);
    DistinctSpec(lemmas);
    TallySpec(lemmas);
    forall k | 0 <= k < |order|
      ensures IndexedAs(all[from + k], pageId, order[k], multiset(lemmas)[order[k]], idx, table)
    {
      assert all[from + k] == all[from..][k];
      assert order[k] in order;
    }
  }

  /** What a second run builds on: one more batch of rows after the old ones,
      and a valid database with the site still there. */
  lemma ProcessLemmasAppendsBatch(db: Db, pageId: nat, text: string, siteId: int)
    requires db.Valid() && SiteById(db.sites, siteId).Some?
    ensures ProcessLemmasSpec(db, pageId, text, siteId).result.Ok?
    ensures ProcessLemmasSpec(db, pageId, text, siteId).db.Valid()
    ensures ProcessLemmasSpec(db, pageId, text, siteId).db.sites == db.sites
    ensures |db.index| <= |ProcessLemmasSpec(db, pageId, text, siteId).db.index|
    ensures ProcessLemmasSpec(db, pageId, text, siteId).db.index[..|db.index|] == db.index
    ensures RowsFor(ProcessLemmasSpec(db, pageId, text, siteId).db.index[|db.index|..], pageId,
                    Distinct(AcceptedLemmas(text)), Tally(AcceptedLemmas(text)), Some(1), ProcessLemmasSpec(db, pageId, text, siteId).db.lemmas)
  {
    var lemmas := AcceptedLemmas(text);
    DistinctSpec(lemmas);
    SaveEntriesLemmas(db, pageId, siteId, Distinct(lemmas), Tally(lemmas), Some(1));
    SaveEntriesIndex(db, pageId, siteId, Distinct(lemmas), Tally(lemmas), Some(1));
  }

  /** Two runs of rows for one page, row k of each for the same lemma. */
  predicate SameBatch(first: seq<IndexRow>, second: seq<IndexRow>, pageId: nat) {
    |first| == |second| &&
    forall k | 0 <= k < |first| ::
      first[k].pageId == pageId == second[k].pageId && first[k].lemmaText == second[k].lemmaText
  }

  /** The same page processed a second time, after the first run. */
  function ProcessTwice(db: Db, pageId: nat, text: string, siteId: int): Outcome<()> {
    ProcessLemmasSpec(ProcessLemmasSpec(db, pageId, text, siteId).db, pageId, text, siteId)
  }

  /** Processing the same page twice leaves two idx rows per lemma, the second
      batch after the first: rows are appended, never updated. */
  lemma ReprocessingDuplicatesRows(db: Db, pageId: nat, text: string, siteId: int)
    requires db.Valid() && SiteById(db.sites, siteId).Some?
    ensures ProcessTwice(db, pageId, text, siteId).result.Ok?
    ensures |ProcessTwice(db, pageId, text, siteId).db.index| == |db.index| + 2 * |Distinct(AcceptedLemmas(text))|
    ensures SameBatch(ProcessTwice(db, pageId, text, siteId).db.index[|db.index|..|db.index| + |Distinct(AcceptedLemmas(text))|],
                      ProcessTwice(db, pageId, text, siteId).db.index[|db.index| + |Distinct(AcceptedLemmas(text))|..], pageId)
  {
    var once := ProcessLemmasSpec(db, pageId, text, siteId);
    ProcessLemmasAppendsBatch(db, pageId, text, siteId);
    ProcessLemmasAppendsBatch(once.db, pageId, text, siteId);
    var twice := ProcessLemmasSpec(once.db, pageId, text, siteId);
    var lemmas := AcceptedLemmas(text);
    TwoBatches(db.index, once.db.index, twice.db.index, once.db.lemmas, twice.db.lemmas, pageId, Distinct(lemmas), Tally(lemmas), Some(1));
    assert SameBatch(twice.db.index[|db.index|..|db.index| + |Distinct(lemmas)|], twice.db.index[|db.index| + |Distinct(lemmas)|..], pageId);
  }

  /** Two batches of rows for the same lemmas, one after the other. */
  lemma TwoBatches(start: seq<IndexRow>, mid: seq<IndexRow>, end: seq<IndexRow>, lemmas1: seq<LemmaRow>, lemmas2: seq<LemmaRow>,
                   pageId: nat, order: seq<string>, counts: map<string, nat>, idx: Option<nat>)
    requires |start| <= |mid| && mid[..|start|] == start
    requires RowsFor(mid[|start|..], pageId, order, counts, idx, lemmas1)
    requires |mid| <= |end| && end[..|mid|] == mid
    requires RowsFor(end[|mid|..], pageId, order, counts, idx, lemmas2)
    ensures |end| == |start| + 2 * |order|
    ensures SameBatch(end[|start|..|start| + |order|], end[|start| + |order|..], pageId)
  {
    var n := |order|;
    var first := end[|start|..|start| + n];
    var second := end[|start| + n..];
    assert first == mid[|start|..];
    assert second == end[|mid|..];
    forall k | 0 <= k < n
      ensures first[k].pageId == pageId == second[k].pageId && first[k].lemmaText == second[k].lemmaText
    {
      assert IndexedAs(first[k], pageId, order[k], Get(counts, order[k]), idx, lemmas1);
      assert IndexedAs(second[k], pageId, order[k], Get(counts, order[k]), idx, lemmas2);
    }
  }

  /** `processLemmas(page, text, site)`. */
  method ProcessLemmas(db: Database, pageId: nat, text: string, site: SiteRow) returns (r: Result<()>)
    modifies db
    ensures Outcome(db.Value(), r) == ProcessLemmasSpec(old(db.Value()), pageId, text, site.id)
  {
    var order, counts := CountLemmas(Split(text, NonWord));
    ghost var start := db.Value();
    var k := 0;
    while k < |order|
      invariant 0 <= k <= |order|
      invariant SaveEntries(db.Value(), pageId, site.id, order[k..], counts, Some(1)) == SaveEntries(start, pageId, site.id, order, counts, Some(1))
    {
      assert order[k..][1..] == order[k + 1..];
      var saved := SaveOrUpdateLemma(db, order[k], site);
      if saved.Err? {
        r := Err(Exception(Runtime, ProcessFailedMessage(pageId, saved.error.message)));
        return;
      }
      var indexId := db.SaveIndex(IndexRow(0, pageId, saved.value.id, order[k], Get(counts, order[k]), Some(1)));
      k := k + 1;
    }
    r := Ok(());
  }
}
