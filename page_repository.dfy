/** PageRepository's two JPQL queries, as filters of the page table by the
    `p.id IN (SELECT i.pageId FROM Index i WHERE i.lemma IN :lemmas)` test. Rows
    come back in table order. */
module PageRepository {
  import opened Common
  import opened Store

  /** The page id appears in the sub-select over the idx table. */
  predicate IndexedUnder(index: seq<IndexRow>, pageId: nat, lemmas: seq<string>) {
    exists k | 0 <= k < |index| :: index[k].pageId == pageId && index[k].lemmaText in lemmas
  }

  /** `findPagesByLemmas(lemmas)`. */
  function FindPagesByLemmas(pages: seq<PageRow>, index: seq<IndexRow>, lemmas: seq<string>): (r: seq<PageRow>)
    ensures |r| <= |pages|
    ensures forall p | p in r :: p in pages && IndexedUnder(index, p.id, lemmas)
    ensures forall p | p in pages && IndexedUnder(index, p.id, lemmas) :: p in r
  {
    if pages == [] then []
    else
      (if IndexedUnder(index, pages[0].id, lemmas) then [pages[0]] else []) +
      FindPagesByLemmas(pages[1..], index, lemmas)
  }

  /** `findPagesByLemmasAndSite(lemmas, siteId)`: the same test plus
      `p.site.id = :siteId`. */
  function FindPagesByLemmasAndSite(pages: seq<PageRow>, index: seq<IndexRow>, lemmas: seq<string>, siteId: int): (r: seq<PageRow>)
    ensures forall p | p in r :: p in pages && p.siteId == Some(siteId) && IndexedUnder(index, p.id, lemmas)
    ensures forall p | p in pages && p.siteId == Some(siteId) && IndexedUnder(index, p.id, lemmas) :: p in r
  {
    if pages == [] then []
    else
      (if pages[0].siteId == Some(siteId) && IndexedUnder(index, pages[0].id, lemmas) then [pages[0]] else []) +
      FindPagesByLemmasAndSite(pages[1..], index, lemmas, siteId)
  }

  /** The pages of one site, in order. */
  function OfSite(pages: seq<PageRow>, siteId: int): seq<PageRow> {
    if pages == [] then []
    else (if pages[0].siteId == Some(siteId) then [pages[0]] else []) + OfSite(pages[1..], siteId)
  }

  /** The site-scoped query is the unscoped one restricted to the site, order
      included. */
  lemma {:induction false} ScopedIsRestrictedUnscoped(pages: seq<PageRow>, index: seq<IndexRow>, lemmas: seq<string>, siteId: int)
    ensures FindPagesByLemmasAndSite(pages, index, lemmas, siteId) ==
            OfSite(FindPagesByLemmas(pages, index, lemmas), siteId)
  {
    if pages != [] {
      ScopedIsRestrictedUnscoped(pages[1..], index, lemmas, siteId);
      var head := if IndexedUnder(index, pages[0].id, lemmas) then [pages[0]] else [];
      var tail := FindPagesByLemmas(pages[1..], index, lemmas);
      OfSiteAppend(head, tail, siteId);
    }
  }

  lemma {:induction false} OfSiteAppend(a: seq<PageRow>, b: seq<PageRow>, siteId: int)
    ensures OfSite(a + b, siteId) == OfSite(a, siteId) + OfSite(b, siteId)
  {
    if a == [] {
      assert a + b == b;
    } else {
      assert (a + b)[0] == a[0];
      assert (a + b)[1..] == a[1..] + b;
      OfSiteAppend(a[1..], b, siteId);
    }
  }

  /** Asking for more lemmas keeps every page the smaller list found, in the
      same order: the smaller answer is the larger one filtered again. */
  lemma {:induction false} MoreLemmasKeepPages(pages: seq<PageRow>, index: seq<IndexRow>, small: seq<string>, large: seq<string>)
    requires forall l | l in small :: l in large
    ensures FindPagesByLemmas(pages, index, small) ==
            FindPagesByLemmas(FindPagesByLemmas(pages, index, large), index, small)
  {
    if pages != [] {
      MoreLemmasKeepPages(pages[1..], index, small, large);
      var rest := FindPagesByLemmas(pages[1..], index, large);
      if IndexedUnder(index, pages[0].id, large) {
        var big := [pages[0]] + rest;
        assert big[0] == pages[0] && big[1..] == rest;
        assert FindPagesByLemmas(pages, index, large) == big;
      } else {
        IndexedUnderMonotone(index, pages[0].id, small, large);
        assert FindPagesByLemmas(pages, index, large) == rest;
        assert FindPagesByLemmas(pages, index, small) == FindPagesByLemmas(pages[1..], index, small);
      }
    }
  }

  lemma IndexedUnderMonotone(index: seq<IndexRow>, pageId: nat, small: seq<string>, large: seq<string>)
    requires forall l | l in small :: l in large
    ensures IndexedUnder(index, pageId, small) ==> IndexedUnder(index, pageId, large)
  {
  }

  predicate DistinctIds(pages: seq<PageRow>) {
    forall i, j | 0 <= i < j < |pages| :: pages[i].id != pages[j].id
  }

  /** The IN-subquery form returns each page at most once, however many idx
      rows match it. */
  lemma {:induction false} EachPageOnce(pages: seq<PageRow>, index: seq<IndexRow>, lemmas: seq<string>)
    requires DistinctIds(pages)
    ensures DistinctIds(FindPagesByLemmas(pages, index, lemmas))
  {
    if pages != [] {
      EachPageOnce(pages[1..], index, lemmas);
      var tail := FindPagesByLemmas(pages[1..], index, lemmas);
      forall p | p in tail ensures p.id != pages[0].id {
        var j :| 0 <= j < |pages[1..]| && pages[1..][j] == p;
        assert pages[j + 1] == p;
      }
    }
  }

  /** Both queries read a table whose keys are valid, so both answers hold no
      page twice. */
  lemma QueriesReturnEachPageOnce(db: Db, lemmas: seq<string>, siteId: int)
    requires db.Valid()
    ensures DistinctIds(FindPagesByLemmas(db.pages, db.index, lemmas))
    ensures DistinctIds(FindPagesByLemmasAndSite(db.pages, db.index, lemmas, siteId))
  {
    EachPageOnce(db.pages, db.index, lemmas);
    ScopedIsRestrictedUnscoped(db.pages, db.index, lemmas, siteId);
    OfSiteKeepsDistinct(FindPagesByLemmas(db.pages, db.index, lemmas), siteId);
  }

  lemma {:induction false} OfSiteKeepsDistinct(pages: seq<PageRow>, siteId: int)
    requires DistinctIds(pages)
    ensures DistinctIds(OfSite(pages, siteId))
    ensures forall p | p in OfSite(pages, siteId) :: p in pages
  {
    if pages != [] {
      OfSiteKeepsDistinct(pages[1..], siteId);
      var tail := OfSite(pages[1..], siteId);
      forall p | p in tail ensures p.id != pages[0].id {
        var j :| 0 <= j < |pages[1..]| && pages[1..][j] == p;
        assert pages[j + 1] == p;
      }
    }
  }
}
