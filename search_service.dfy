/** SearchService: turning a query into lemmas, selecting the pages that hold
    every lemma, scoring them against each other, and returning the hits
    sorted by relevance and cut to the requested window. */
module SearchService {
  import opened Common
  import opened Text
  import opened Store
  import opened PageRepository
  import opened SearchResultDto

  /** DEFAULT_MIN_WORD_LENGTH */
  const MinWordLength: nat := 3
  /** Snippets are cut after this many characters and "..." is appended. */
  const SnippetLength: nat := 200

  const BlankQueryMessage: string := "Поисковый запрос не может быть пустым."

  function NoLemmasMessage(query: string): string {
    "Не найдено лемм для запроса: '" + query + "'"
  }

  function SiteNotIndexedMessage(site: string): string {
    "Сайт с URL '" + site + "' не проиндексирован."
  }

  /** What the JVM reports when a page without a site reaches `p.getSite().getUrl()`. */
  const PageWithoutSiteMessage: string :=
    "Cannot invoke \"searchengine.entity.Site.getUrl()\" because the return value of \"searchengine.entity.Page.getSite()\" is null"

  // ---------------------------------------------------------------------------
  // Query lemmas

  /** `lemmatizeWord`: digits removed, then every non-word character; what is
      left is exactly the word's letters and underscores, in order. */
  function LemmatizeWord(word: string): (r: string)
    ensures |r| <= |word|
    ensures forall i | 0 <= i < |r| :: IsWordChar(r[i]) && !IsAsciiDigit(r[i]) && r[i] in word
    ensures r == Filter(word, IsLemmaChar)
  {
    var noDigits := RemoveDigits(word);
    var r := RemoveNonWord(noDigits);
    RemoveDigitsThenNonWord(word);
    r
  }

  /** The words of the lower-cased query: `split("[,\\s]+")`. */
  function QueryWords(query: string): seq<string> {
    Split(ToLower(query), CommaOrSpace)
  }

  function LemmatizeAll(words: seq<string>): (r: seq<string>)
    ensures |r| == |words|
    ensures forall i | 0 <= i < |words| :: r[i] == LemmatizeWord(words[i])
  {
    seq(|words|, i requires 0 <= i < |words| => LemmatizeWord(words[i]))
  }

  /** `filter(word -> word.length() >= minWordLength)`. */
  function LongEnough(words: seq<string>): (r: seq<string>)
    ensures forall w | w in r :: w in words && |w| >= MinWordLength
    ensures forall w | w in words && |w| >= MinWordLength :: w in r
  {
    if words == [] then []
    else (if |words[0]| >= MinWordLength then [words[0]] else []) + LongEnough(words[1..])
  }

  /** `extractLemmas(query, DEFAULT_MIN_WORD_LENGTH)`. */
  function ExtractLemmas(query: string): seq<string> {
    Distinct(LongEnough(LemmatizeAll(QueryWords(query))))
  }

  /** What a query lemma looks like: at least three characters, each a
      lower-case ASCII letter or an underscore. */
  predicate IsQueryLemma(l: string) {
    |l| >= MinWordLength && forall i | 0 <= i < |l| :: IsAsciiLower(l[i]) || l[i] == '_'
  }

  /** The query lemmas are exactly the lemmatized query words of three or more
      characters, each listed once, and each is a lower-case word. */
  lemma ExtractLemmasSpec(query: string)
    ensures NoDuplicates(ExtractLemmas(query))
    ensures forall l | l in ExtractLemmas(query) ::
      IsQueryLemma(l) && exists w | w in QueryWords(query) :: LemmatizeWord(w) == l
    ensures forall w | w in QueryWords(query) && |LemmatizeWord(w)| >= MinWordLength ::
      LemmatizeWord(w) in ExtractLemmas(query)
  {
    var lower := ToLower(query);
    var words := QueryWords(query);
    var lemmatized := LemmatizeAll(words);
    DistinctSpec(LongEnough(lemmatized));
    SplitPieces(lower, CommaOrSpace);
    forall l | l in ExtractLemmas(query)
      ensures IsQueryLemma(l) && exists w | w in words :: LemmatizeWord(w) == l
    {
      var i :| 0 <= i < |lemmatized| && lemmatized[i] == l;
      assert words[i] in words;
      forall j | 0 <= j < |l| ensures IsAsciiLower(l[j]) || l[j] == '_' {
        assert l[j] in words[i];
        var m :| 0 <= m < |lower| && lower[m] == l[j];
        assert !IsAsciiUpper(l[j]);
      }
    }
    forall w | w in words && |LemmatizeWord(w)| >= MinWordLength
      ensures LemmatizeWord(w) in ExtractLemmas(query)
    {
      var i :| 0 <= i < |words| && words[i] == w;
      assert lemmatized[i] in lemmatized;
    }
  }

  /** Lemmas the scoring and highlighting code can take: non-empty literal words. */
  predicate ScoringLemmas(lemmas: seq<string>) {
    forall i | 0 <= i < |lemmas| :: |lemmas[i]| > 0 && forall j | 0 <= j < |lemmas[i]| :: IsWordChar(lemmas[i][j])
  }

  lemma QueryLemmasScore(query: string)
    ensures ScoringLemmas(ExtractLemmas(query))
  {
    ExtractLemmasSpec(query);
    var lemmas := ExtractLemmas(query);
    forall i | 0 <= i < |lemmas|
      ensures |lemmas[i]| > 0 && forall j | 0 <= j < |lemmas[i]| :: IsWordChar(lemmas[i][j])
    {
      assert lemmas[i] in lemmas;
    }
  }

  // ---------------------------------------------------------------------------
  // Selecting pages

  /** `lemmas.stream().allMatch(lemma -> content.toLowerCase().contains(lemma))`. */
  predicate ContainsAll(content: string, lemmas: seq<string>) {
    forall i | 0 <= i < |lemmas| :: Contains(ToLower(content), lemmas[i])
  }

  function KeepContainingAll(pages: seq<PageRow>, lemmas: seq<string>): (r: seq<PageRow>)
    ensures |r| <= |pages|
    ensures forall p | p in r :: p in pages && ContainsAll(p.content, lemmas)
    ensures forall p | p in pages && ContainsAll(p.content, lemmas) :: p in r
  {
    if pages == [] then []
    else
      (if ContainsAll(pages[0].content, lemmas) then [pages[0]] else []) +
      KeepContainingAll(pages[1..], lemmas)
  }

  /** `filterPagesByLemmas(lemmas, site)`: the repository query (scoped to the
      site when one is named), then only the pages whose lower-cased content
      contains every lemma. A named site that is not stored gives no page. */
  function FilterPagesByLemmas(db: Db, lemmas: seq<string>, site: Option<string>): seq<PageRow> {
    if site.Some? && site.value != [] then
      match SiteByUrl(db.sites, site.value)
      case None => []
      case Some(i) => KeepContainingAll(FindPagesByLemmasAndSite(db.pages, db.index, lemmas, db.sites[i].id), lemmas)
    else KeepContainingAll(FindPagesByLemmas(db.pages, db.index, lemmas), lemmas)
  }

  /** Without a site, the selected pages are exactly the stored pages indexed
      under one of the lemmas whose content contains all of them; with a site,
      the same restricted to the pages of the first site row with that url. */
  lemma FilterPagesSpec(db: Db, lemmas: seq<string>, site: Option<string>)
    ensures site.None? || site.value == [] ==>
      forall p :: p in FilterPagesByLemmas(db, lemmas, site) <==>
        p in db.pages && IndexedUnder(db.index, p.id, lemmas) && ContainsAll(p.content, lemmas)
    ensures site.Some? && site.value != [] && SiteByUrl(db.sites, site.value).None? ==>
      FilterPagesByLemmas(db, lemmas, site) == []
    ensures site.Some? && site.value != [] && SiteByUrl(db.sites, site.value).Some? ==>
      var owner := db.sites[SiteByUrl(db.sites, site.value).value];
      owner.url == site.value &&
      forall p :: p in FilterPagesByLemmas(db, lemmas, site) <==>
        p in db.pages && p.siteId == Some(owner.id) && IndexedUnder(db.index, p.id, lemmas) && ContainsAll(p.content, lemmas)
  {
  }

  // ---------------------------------------------------------------------------
  // Scoring

  function SumCounts(content: string, lemmas: seq<string>): nat
    requires forall i | 0 <= i < |lemmas| :: |lemmas[i]| > 0
  {
    if lemmas == [] then 0 else Count(content, lemmas[0]) + SumCounts(content, lemmas[1..])
  }

  /** `calculatePageRelevance`: how often each lemma occurs in the lower-cased
      content, summed over the lemmas. */
  function PageScore(content: string, lemmas: seq<string>): nat
    requires forall i | 0 <= i < |lemmas| :: |lemmas[i]| > 0
  {
    SumCounts(ToLower(content), lemmas)
  }

  lemma {:induction false} SumCountsAtLeast(content: string, lemmas: seq<string>)
    requires forall i | 0 <= i < |lemmas| :: |lemmas[i]| > 0 && Contains(content, lemmas[i])
    ensures SumCounts(content, lemmas) >= |lemmas|
  {
    if lemmas != [] {
      ContainsIffCounted(content, lemmas[0]);
      SumCountsAtLeast(content, lemmas[1..]);
    }
  }

  /** A page that contains every lemma scores at least one per lemma. */
  lemma ScoreAtLeastLemmaCount(content: string, lemmas: seq<string>)
    requires forall i | 0 <= i < |lemmas| :: |lemmas[i]| > 0
    requires ContainsAll(content, lemmas)
    ensures PageScore(content, lemmas) >= |lemmas|
  {
    SumCountsAtLeast(ToLower(content), lemmas);
  }

  lemma {:induction false} SumCountsAtMost(content: string, lemmas: seq<string>)
    requires forall i | 0 <= i < |lemmas| :: |lemmas[i]| > 0
    ensures SumCounts(content, lemmas) <= |lemmas| * |content|
  {
    if lemmas != [] {
      CountBound(content, lemmas[0]);
      SumCountsAtMost(content, lemmas[1..]);
      assert |lemmas| * |content| == |content| + (|lemmas| - 1) * |content|;
    }
  }

  /** No lemma can be counted more often than the content has characters. */
  lemma ScoreAtMostContentLength(content: string, lemmas: seq<string>)
    requires forall i | 0 <= i < |lemmas| :: |lemmas[i]| > 0
    ensures PageScore(content, lemmas) <= |lemmas| * |content|
  {
    SumCountsAtMost(ToLower(content), lemmas);
  }

  /** `countOccurrences(content, lemma)`: repeated `indexOf`, each search
      resuming after the match it found. An empty lemma would never advance the
      scan, so the lemma must not be empty. */
  method CountOccurrences(content: string, word: string) returns (count: nat)
    requires |word| > 0
    ensures count == Count(content, word)
  {
    count := 0;
    var index := 0;
    assert content[0..] == content;
    while true
      invariant 0 <= index <= |content|
      invariant count + Count(content[index..], word) == Count(content, word)
      decreases |content| - index
    {
      var found := IndexOf(content, word, index);
      CountFromIndexOf(content, word, index);
      if found == -1 {
        break;
      }
      count := count + 1;
      index := found + |word|;
    }
  }

  /** `calculatePageRelevance(page, lemmas)`: the stream sum of the counts. */
  method CalculatePageRelevance(page: PageRow, lemmas: seq<string>) returns (score: nat)
    requires forall i | 0 <= i < |lemmas| :: |lemmas[i]| > 0
    ensures score == PageScore(page.content, lemmas)
  {
    var content := ToLower(page.content);
    score := 0;
    for k := 0 to |lemmas|
      invariant score + SumCounts(content, lemmas[k..]) == SumCounts(content, lemmas)
    {
      assert lemmas[k..][1..] == lemmas[k + 1..];
      var n := CountOccurrences(content, lemmas[k]);
      score := score + n;
    }
  }

  // ---------------------------------------------------------------------------
  // Urls and file names

  /** The page's absolute url: its path when that starts with "http", else the
      site url and the path joined by exactly the one slash the path may lack. */
  function FullUrl(siteUrl: string, path: string): (r: string)
    ensures StartsWith(path, "http") ==> r == path
    ensures !StartsWith(path, "http") && StartsWith(path, "/") ==> r == siteUrl + path
    ensures !StartsWith(path, "http") && !StartsWith(path, "/") ==> r == siteUrl + "/" + path
  {
    if StartsWith(path, "http") then path
    else siteUrl + (if StartsWith(path, "/") then "" else "/") + path
  }

  /** `replaceFirst("^https?://", "")`. */
  function StripScheme(url: string): (r: string)
    ensures url == "http://" + r || url == "https://" + r || r == url
    ensures StartsWith(url, "http://") ==> url == "http://" + r
    ensures StartsWith(url, "https://") ==> url == "https://" + r
  {
    if StartsWith(url, "http://") then
      assert url[4] == ':';
      url[7..]
    else if StartsWith(url, "https://") then url[8..]
    else url
  }

  /** `extractFileName(fullUrl, siteUrl)`: what follows the last slash, or the
      site url without its scheme when nothing follows one. */
  function FileName(fullUrl: string, siteUrl: string): (r: string)
    ensures fullUrl == [] ==> r == []
    ensures fullUrl != [] && '/' in fullUrl && fullUrl[|fullUrl| - 1] != '/' ==>
      0 < |r| < |fullUrl| && '/' !in r &&
      fullUrl[|fullUrl| - |r| - 1] == '/' && fullUrl[|fullUrl| - |r|..] == r
    ensures fullUrl != [] && ('/' !in fullUrl || fullUrl[|fullUrl| - 1] == '/') ==>
      r == StripScheme(siteUrl)
  {
    if fullUrl == [] then []
    else
      var slash := LastIndexOf(fullUrl, '/');
      var extracted := if slash != -1 && slash < |fullUrl| - 1 then fullUrl[slash + 1..] else [];
      if extracted == [] then StripScheme(siteUrl) else extracted
  }

  /** `extractBaseUrl(fullUrl)`: protocol and host, or the url itself when it
      does not parse. */
  function ExtractBaseUrl(parse: string -> Option<Url>, fullUrl: string): (r: string)
    ensures parse(fullUrl).None? ==> r == fullUrl
    ensures parse(fullUrl).Some? ==> r == parse(fullUrl).value.protocol + "://" + parse(fullUrl).value.host
  {
    match parse(fullUrl)
    case Some(u) => u.protocol + "://" + u.host
    case None => fullUrl
  }

  /** `extractRelativeUrl(fullUrl)`: the path alone, or "" when the url does not
      parse. */
  function ExtractRelativeUrl(parse: string -> Option<Url>, fullUrl: string): (r: string)
    ensures parse(fullUrl).None? ==> r == []
    ensures parse(fullUrl).Some? ==> r == parse(fullUrl).value.path
  {
    match parse(fullUrl)
    case Some(u) => u.path
    case None => []
  }

  /** The service and the DTO agree on the base url; on the relative url they
      differ exactly when the url carries a query, which the DTO keeps and the
      service drops. */
  lemma UrlHelpersAgreeWithDto(parse: string -> Option<Url>, fullUrl: string)
    ensures BaseUrlOf(parse, Some(fullUrl)) == Some(ExtractBaseUrl(parse, fullUrl))
    ensures parse(fullUrl).None? || parse(fullUrl).value.query.None? ==>
      RelativeUrlOf(parse, Some(fullUrl)) == ExtractRelativeUrl(parse, fullUrl)
    ensures parse(fullUrl).Some? && parse(fullUrl).value.query.Some? ==>
      RelativeUrlOf(parse, Some(fullUrl)) ==
        ExtractRelativeUrl(parse, fullUrl) + "?" + parse(fullUrl).value.query.value
  {
  }

  // ---------------------------------------------------------------------------
  // Snippets

  /** `content.replaceAll("(?i)" + lemma, "<b>" + lemma + "</b>")` for a lemma
      made of word characters, which the regex reads literally. */
  function HighlightOne(content: string, word: string): string
    requires forall j | 0 <= j < |word| :: IsWordChar(word[j])
  {
    if word == [] then ReplaceEmptyMatches(content, "<b></b>")
    else ReplaceAllIgnoreCase(content, word, "<b>" + word + "</b>")
  }

  /** The loop of `generateSnippet`: each lemma highlighted in turn. */
  function Highlight(content: string, lemmas: seq<string>): string
    requires forall i | 0 <= i < |lemmas| :: forall j | 0 <= j < |lemmas[i]| :: IsWordChar(lemmas[i][j])
    decreases |lemmas|
  {
    if lemmas == [] then content else Highlight(HighlightOne(content, lemmas[0]), lemmas[1..])
  }

  /** `length() > 200 ? substring(0, 200) + "..." : content`. */
  function Truncate(s: string): (r: string)
    ensures |r| <= SnippetLength + 3
    ensures |s| <= SnippetLength ==> r == s
    ensures |s| > SnippetLength ==> r == s[..SnippetLength] + "..."
  {
    if |s| > SnippetLength then s[..SnippetLength] + "..." else s
  }

  /** `generateSnippet(content, lemmas)`. */
  function Snippet(content: string, lemmas: seq<string>): string
    requires forall i | 0 <= i < |lemmas| :: forall j | 0 <= j < |lemmas[i]| :: IsWordChar(lemmas[i][j])
  {
    Truncate(Highlight(content, lemmas))
  }

  lemma LowerLemmaIsItsOwnLowerCase(l: string)
    requires forall j | 0 <= j < |l| :: !IsAsciiUpper(l[j])
    ensures ToLower(l) == l
  {
  }

  /** Highlighting a lower-case lemma wraps each of its case-insensitive
      occurrences in <b></b>: the text grows by seven characters per
      occurrence, and a text without one is left as it is. */
  lemma {:induction false} HighlightOneGrowth(content: string, word: string)
    requires |word| > 0 && forall j | 0 <= j < |word| :: IsWordChar(word[j]) && !IsAsciiUpper(word[j])
    ensures |HighlightOne(content, word)| == |content| + 7 * Count(ToLower(content), word)
    ensures Count(ToLower(content), word) == 0 ==> HighlightOne(content, word) == content
  {
    var rep := "<b>" + word + "</b>";
    assert |rep| - |word| == 7;
    LowerLemmaIsItsOwnLowerCase(word);
    assert HighlightOne(content, word) == ReplaceAllIgnoreCase(content, word, rep);
    ReplaceAllLength(content, word, rep);
    if Count(ToLower(content), word) == 0 {
      ReplaceAllNoMatch(content, word, rep);
    }
  }

  /** A snippet never exceeds 203 characters, is the whole highlighted text when
      that fits, and otherwise starts with its first 200 characters. */
  lemma SnippetShape(content: string, lemmas: seq<string>)
    requires forall i | 0 <= i < |lemmas| :: forall j | 0 <= j < |lemmas[i]| :: IsWordChar(lemmas[i][j])
    ensures |Snippet(content, lemmas)| <= SnippetLength + 3
    ensures |Highlight(content, lemmas)| <= SnippetLength ==> Snippet(content, lemmas) == Highlight(content, lemmas)
    ensures |Highlight(content, lemmas)| > SnippetLength ==>
      Snippet(content, lemmas)[..SnippetLength] == Highlight(content, lemmas)[..SnippetLength]
  {
  }

  /** `generateSnippet(content, lemmas)`: the loop reassigning `content`. */
  method GenerateSnippet(content: string, lemmas: seq<string>) returns (snippet: string)
    requires forall i | 0 <= i < |lemmas| :: forall j | 0 <= j < |lemmas[i]| :: IsWordChar(lemmas[i][j])
    ensures snippet == Snippet(content, lemmas)
  {
    var text := content;
    for k := 0 to |lemmas|
      invariant Highlight(text, lemmas[k..]) == Highlight(content, lemmas)
    {
      assert lemmas[k..][0] == lemmas[k];
      assert lemmas[k..][1..] == lemmas[k + 1..];
      if lemmas[k] == [] {
        text := ReplaceEmptyMatches(text, "<b></b>");
      } else {
        text := ReplaceAllIgnoreCase(text, lemmas[k], "<b>" + lemmas[k] + "</b>");
      }
    }
    assert lemmas[|lemmas|..] == [];
    if |text| > SnippetLength {
      snippet := text[..SnippetLength] + "...";
    } else {
      snippet := text;
    }
  }

  // ---------------------------------------------------------------------------
  // Relevance

  /** `page.getSite()`: the site row the page points at, null when it has none. */
  function PageSite(sites: seq<SiteRow>, p: PageRow): (r: Option<SiteRow>)
    ensures r.Some? <==> p.siteId.Some? && SiteById(sites, p.siteId.value).Some?
    ensures r.Some? ==> r.value in sites && r.value.id == p.siteId.value
  {
    match p.siteId
    case None => None
    case Some(id) =>
      match SiteById(sites, id)
      case None => None
      case Some(i) => Some(sites[i])
  }

  function Scores(pages: seq<PageRow>, lemmas: seq<string>): (r: seq<nat>)
    requires forall i | 0 <= i < |lemmas| :: |lemmas[i]| > 0
    ensures |r| == |pages|
    ensures forall i | 0 <= i < |pages| :: r[i] == PageScore(pages[i].content, lemmas)
  {
    seq(|pages|, i requires 0 <= i < |pages| => PageScore(pages[i].content, lemmas))
  }

  /** `stream().max(Double::compare)` on a non-empty list. */
  function MaxScore(scores: seq<nat>): (m: nat)
    requires |scores| > 0
    ensures exists i | 0 <= i < |scores| :: scores[i] == m
    ensures forall i | 0 <= i < |scores| :: scores[i] <= m
  {
    if |scores| == 1 then scores[0]
    else
      var rest := MaxScore(scores[1..]);
      assert forall i | 1 <= i < |scores| :: scores[i] == scores[1..][i - 1];
      if scores[0] >= rest then scores[0] else rest
  }

  /** `maxRelevance`: the highest score, or 1 when there is no page. Every page
      passed the AND filter, so the maximum is at least the number of lemmas. */
  function MaxRelevance(pages: seq<PageRow>, lemmas: seq<string>): (m: nat)
    requires ScoringLemmas(lemmas) && |lemmas| > 0
    requires forall i | 0 <= i < |pages| :: ContainsAll(pages[i].content, lemmas)
    ensures m > 0
    ensures |pages| == 0 ==> m == 1
    ensures |pages| > 0 ==> m == MaxScore(Scores(pages, lemmas))
  {
    if |pages| == 0 then 1
    else
      ScoreAtLeastLemmaCount(pages[0].content, lemmas);
      MaxScore(Scores(pages, lemmas))
  }

  /** The hit for one page of a site: the DTO the seven-argument constructor
      builds from the page's absolute url. */
  function Hit(parse: string -> Option<Url>, site: SiteRow, p: PageRow, snippet: string, relevance: real): (d: Dto)
    ensures d.relevance == relevance && d.snippet == snippet
    ensures d.title == OrElse(p.title, DefaultTitle) && d.siteName == site.name
    ensures d.fileName == FileName(FullUrl(site.url, p.path), site.url)
  {
    var full := FullUrl(site.url, p.path);
    Create(Some(ExtractBaseUrl(parse, full)), Some(ExtractRelativeUrl(parse, full)), p.title,
           Some(snippet), relevance, Some(site.name), Some(FileName(full, site.url)))
  }

  /** The lemma list `calculateRelevance` is called with: the query lemmas, all
      of which every page contains. */
  predicate RelevanceInputs(pages: seq<PageRow>, lemmas: seq<string>) {
    ScoringLemmas(lemmas) && |lemmas| > 0 &&
    forall i | 0 <= i < |pages| :: ContainsAll(pages[i].content, lemmas)
  }

  predicate AllPagesHaveSites(sites: seq<SiteRow>, pages: seq<PageRow>) {
    forall i | 0 <= i < |pages| :: PageSite(sites, pages[i]).Some?
  }

  /** Each page's snippet. */
  function Snippets(pages: seq<PageRow>, lemmas: seq<string>): (r: seq<string>)
    requires ScoringLemmas(lemmas)
    ensures |r| == |pages|
    ensures forall i | 0 <= i < |pages| :: r[i] == Snippet(pages[i].content, lemmas)
  {
    seq(|pages|, i requires 0 <= i < |pages| => Snippet(pages[i].content, lemmas))
  }

  /** Each page's score divided by the highest score. */
  function Relevances(pages: seq<PageRow>, lemmas: seq<string>): (r: seq<real>)
    requires RelevanceInputs(pages, lemmas)
    ensures |r| == |pages|
  {
    var max := MaxRelevance(pages, lemmas);
    seq(|pages|, i requires 0 <= i < |pages| => PageScore(pages[i].content, lemmas) as real / max as real)
  }

  /** Every relevance lies in (0, 1] and the best page's is exactly 1. */
  lemma RelevancesInUnitInterval(pages: seq<PageRow>, lemmas: seq<string>)
    requires RelevanceInputs(pages, lemmas)
    ensures forall i | 0 <= i < |pages| :: 0.0 < Relevances(pages, lemmas)[i] <= 1.0
    ensures |pages| > 0 ==> exists i | 0 <= i < |pages| :: Relevances(pages, lemmas)[i] == 1.0
  {
    var max := MaxRelevance(pages, lemmas);
    var scores := Scores(pages, lemmas);
    var r := Relevances(pages, lemmas);
    forall i | 0 <= i < |pages| ensures 0.0 < r[i] <= 1.0 {
      ScoreAtLeastLemmaCount(pages[i].content, lemmas);
      assert scores[i] == PageScore(pages[i].content, lemmas);
      RatioInUnitInterval(scores[i], max);
    }
    if |pages| > 0 {
      var k :| 0 <= k < |scores| && scores[k] == max;
      RatioInUnitInterval(max, max);
      assert r[k] == 1.0;
    }
  }

  lemma RatioInUnitInterval(score: nat, max: nat)
    requires 0 < score <= max
    ensures 0.0 < score as real / max as real <= 1.0
    ensures score == max ==> score as real / max as real == 1.0
  {
  }

  /** The hits of the first `n` pages, in page order. */
  function Hits(parse: string -> Option<Url>, sites: seq<SiteRow>, pages: seq<PageRow>, snippets: seq<string>, relevances: seq<real>, n: nat): (r: seq<Dto>)
    requires n <= |pages| == |snippets| == |relevances|
    requires forall j | 0 <= j < n :: PageSite(sites, pages[j]).Some?
    ensures |r| == n
  {
    seq(n, j requires 0 <= j < |pages| == |snippets| == |relevances| && PageSite(sites, pages[j]).Some? =>
      Hit(parse, PageSite(sites, pages[j]).value, pages[j], snippets[j], relevances[j]))
  }

  lemma HitsSnoc(parse: string -> Option<Url>, sites: seq<SiteRow>, pages: seq<PageRow>, snippets: seq<string>, relevances: seq<real>, n: nat)
    requires n < |pages| == |snippets| == |relevances|
    requires forall j | 0 <= j <= n :: PageSite(sites, pages[j]).Some?
    ensures Hits(parse, sites, pages, snippets, relevances, n + 1) ==
      Hits(parse, sites, pages, snippets, relevances, n) +
      [Hit(parse, PageSite(sites, pages[n]).value, pages[n], snippets[n], relevances[n])]
  {
  }

  /** `calculateRelevance(pages, lemmas)`: one hit per page, each scored relative
      to the best page; a page without a site throws NullPointerException. */
  function Relevance(sites: seq<SiteRow>, pages: seq<PageRow>, lemmas: seq<string>, parse: string -> Option<Url>): Result<seq<Dto>>
    requires RelevanceInputs(pages, lemmas)
  {
    if !AllPagesHaveSites(sites, pages) then Err(Exception(NullPointer, PageWithoutSiteMessage))
    else Ok(Hits(parse, sites, pages, Snippets(pages, lemmas), Relevances(pages, lemmas), |pages|))
  }

  /** Relevance lies in (0, 1], the best page gets exactly 1, and each hit
      carries its page's title (or the default), site name and snippet. An
      error happens exactly when some page has no site. */
  lemma RelevanceSpec(sites: seq<SiteRow>, pages: seq<PageRow>, lemmas: seq<string>, parse: string -> Option<Url>)
    requires RelevanceInputs(pages, lemmas)
    ensures Relevance(sites, pages, lemmas, parse).Err? <==> !AllPagesHaveSites(sites, pages)
    ensures Relevance(sites, pages, lemmas, parse).Err? ==>
      Relevance(sites, pages, lemmas, parse).error.kind == NullPointer
    ensures Relevance(sites, pages, lemmas, parse).Ok? ==>
      var hits := Relevance(sites, pages, lemmas, parse).value;
      |hits| == |pages| &&
      (forall i | 0 <= i < |hits| ::
        0.0 < hits[i].relevance <= 1.0 &&
        hits[i].title == OrElse(pages[i].title, DefaultTitle) &&
        hits[i].siteName == PageSite(sites, pages[i]).value.name &&
        hits[i].snippet == Snippet(pages[i].content, lemmas)) &&
      (|hits| > 0 ==> exists i | 0 <= i < |hits| :: hits[i].relevance == 1.0)
  {
    if AllPagesHaveSites(sites, pages) {
      var snippets := Snippets(pages, lemmas);
      var relevances := Relevances(pages, lemmas);
      var hits := Hits(parse, sites, pages, snippets, relevances, |pages|);
      RelevancesInUnitInterval(pages, lemmas);
      forall i | 0 <= i < |hits|
        ensures 0.0 < hits[i].relevance <= 1.0 &&
          hits[i].title == OrElse(pages[i].title, DefaultTitle) &&
          hits[i].siteName == PageSite(sites, pages[i]).value.name &&
          hits[i].snippet == Snippet(pages[i].content, lemmas)
      {
      }
      if |pages| > 0 {
        var k :| 0 <= k < |pages| && relevances[k] == 1.0;
        assert hits[k].relevance == 1.0;
      }
    }
  }

  /** The first loop of `calculateRelevance`: every page's score, in page
      order. */
  method ScorePages(pages: seq<PageRow>, lemmas: seq<string>) returns (scores: seq<nat>)
    requires forall i | 0 <= i < |lemmas| :: |lemmas[i]| > 0
    ensures scores == Scores(pages, lemmas)
  {
    scores := [];
    for i := 0 to |pages|
      invariant |scores| == i
      invariant forall j | 0 <= j < i :: scores[j] == PageScore(pages[j].content, lemmas)
    {
      var score := CalculatePageRelevance(pages[i], lemmas);
      scores := scores + [score];
    }
  }

  /** `calculateRelevance(pages, lemmas)`: the scores, their maximum, then one
      DTO per page. */
  method CalculateRelevance(sites: seq<SiteRow>, pages: seq<PageRow>, lemmas: seq<string>, parse: string -> Option<Url>)
    returns (r: Result<seq<Dto>>)
    requires RelevanceInputs(pages, lemmas)
    ensures r == Relevance(sites, pages, lemmas, parse)
  {
    var scores := ScorePages(pages, lemmas);
    var max: nat := 1;
    if |scores| > 0 {
      max := MaxScore(scores);
    }
    assert max == MaxRelevance(pages, lemmas);
    ghost var snippets := Snippets(pages, lemmas);
    ghost var relevances := Relevances(pages, lemmas);
    var hits: seq<Dto> := [];
    for i := 0 to |pages|
      invariant forall j | 0 <= j < i :: PageSite(sites, pages[j]).Some?
      invariant hits == Hits(parse, sites, pages, snippets, relevances, i)
    {
      var site := PageSite(sites, pages[i]);
      if site.None? {
        assert !AllPagesHaveSites(sites, pages);
        return Err(Exception(NullPointer, PageWithoutSiteMessage));
      }
      var snippet := GenerateSnippet(pages[i].content, lemmas);
      var relevance := scores[i] as real / max as real;
      assert snippet == snippets[i] && relevance == relevances[i];
      forall j | 0 <= j < i + 1 ensures PageSite(sites, pages[j]).Some? {
        if j == i {
          assert PageSite(sites, pages[j]) == site;
        }
      }
      HitsSnoc(parse, sites, pages, snippets, relevances, i);
      hits := hits + [Hit(parse, site.value, pages[i], snippet, relevance)];
    }
    assert AllPagesHaveSites(sites, pages);
    r := Ok(hits);
  }

  // ---------------------------------------------------------------------------
  // Ordering and the result window

  /** Sorted by relevance, highest first. */
  predicate NonIncreasing(hits: seq<Dto>) {
    forall i, j | 0 <= i < j < |hits| :: hits[i].relevance >= hits[j].relevance
  }

  /** Places `x`, which came before every element of `sorted`, ahead of the
      first element it does not rank below, so equal relevances keep their
      order. */
  function InsertByRelevance(x: Dto, sorted: seq<Dto>): (r: seq<Dto>)
    ensures multiset(r) == multiset(sorted) + multiset{x}
  {
    if sorted == [] || x.relevance >= sorted[0].relevance then [x] + sorted
    else
      assert sorted == [sorted[0]] + sorted[1..];
      [sorted[0]] + InsertByRelevance(x, sorted[1..])
  }

  /** `sorted(comparingDouble(getRelevance).reversed())`: a stable sort,
      highest relevance first. */
  function SortByRelevance(hits: seq<Dto>): (r: seq<Dto>)
    ensures multiset(r) == multiset(hits)
  {
    if hits == [] then []
    else
      assert hits == [hits[0]] + hits[1..];
      InsertByRelevance(hits[0], SortByRelevance(hits[1..]))
  }

  lemma {:induction false} InsertKeepsOrder(x: Dto, sorted: seq<Dto>)
    requires NonIncreasing(sorted)
    ensures NonIncreasing(InsertByRelevance(x, sorted))
  {
    if sorted != [] && x.relevance < sorted[0].relevance {
      var tail := sorted[1..];
      InsertKeepsOrder(x, tail);
      var inserted := InsertByRelevance(x, tail);
      forall k | 0 <= k < |inserted| ensures inserted[k].relevance <= sorted[0].relevance {
        assert inserted[k] in multiset(inserted);
        assert inserted[k] == x || inserted[k] in multiset(tail);
      }
    }
  }

  /** The sort returns the same hits, highest relevance first. */
  lemma {:induction false} SortByRelevanceSpec(hits: seq<Dto>)
    ensures NonIncreasing(SortByRelevance(hits))
    ensures multiset(SortByRelevance(hits)) == multiset(hits)
  {
    if hits != [] {
      SortByRelevanceSpec(hits[1..]);
      InsertKeepsOrder(hits[0], SortByRelevance(hits[1..]));
    }
  }

  function Min(a: int, b: int): int { if a <= b then a else b }
  function Max(a: int, b: int): int { if a >= b then a else b }

  /** `.skip(offset).limit(limit)`: either bound negative throws
      IllegalArgumentException with the number as its message, `skip` being
      checked first. */
  function Paginate(hits: seq<Dto>, offset: int, limit: int): (r: Result<seq<Dto>>)
    ensures offset < 0 ==> r == Err(Exception(IllegalArgument, IntToString(offset)))
    ensures 0 <= offset && limit < 0 ==> r == Err(Exception(IllegalArgument, IntToString(limit)))
    ensures 0 <= offset && 0 <= limit ==> r.Ok?
    ensures r.Ok? ==> |r.value| == Min(limit, Max(0, |hits| - offset))
    ensures r.Ok? ==> forall i | 0 <= i < |r.value| :: r.value[i] == hits[offset + i]
  {
    if offset < 0 then Err(Exception(IllegalArgument, IntToString(offset)))
    else if limit < 0 then Err(Exception(IllegalArgument, IntToString(limit)))
    else
      var rest := if offset <= |hits| then hits[offset..] else [];
      Ok(if limit <= |rest| then rest[..limit] else rest)
  }

  // ---------------------------------------------------------------------------
  // search

  /** `search(query, site, offset, limit)`. A null query or site is None. */
  function SearchSpec(db: Db, query: Option<string>, site: Option<string>, offset: int, limit: int, parse: string -> Option<Url>): Result<seq<Dto>>
  {
    if query.None? || IsBlank(query.value) then Err(Exception(IllegalArgument, BlankQueryMessage))
    else
      var lemmas := ExtractLemmas(query.value);
      if lemmas == [] then Err(Exception(IllegalArgument, NoLemmasMessage(query.value)))
      else if site.Some? && site.value != [] && SiteByUrl(db.sites, site.value).None? then
        Err(Exception(IllegalArgument, SiteNotIndexedMessage(site.value)))
      else
        QueryLemmasScore(query.value);
        Answer(db, lemmas, site, offset, limit, parse)
  }

  /** What `search` returns once the request has passed its checks: nothing
      when no page matches (before offset and limit are looked at), else the
      sorted window of hits. */
  function Answer(db: Db, lemmas: seq<string>, site: Option<string>, offset: int, limit: int, parse: string -> Option<Url>): Result<seq<Dto>>
    requires ScoringLemmas(lemmas) && |lemmas| > 0
  {
    FilteredPagesContainAll(db, lemmas, site);
    RankedWindow(db.sites, FilterPagesByLemmas(db, lemmas, site), lemmas, offset, limit, parse)
  }

  /** The hits of the selected pages, sorted and windowed. */
  function RankedWindow(sites: seq<SiteRow>, pages: seq<PageRow>, lemmas: seq<string>, offset: int, limit: int, parse: string -> Option<Url>): Result<seq<Dto>>
    requires RelevanceInputs(pages, lemmas)
  {
    match Relevance(sites, pages, lemmas, parse)
    case Err(e) => Err(e)
    case Ok(hits) =>
      if hits == [] then Ok([])
      else Paginate(SortByRelevance(hits), offset, limit)
  }

  lemma FilteredPagesContainAll(db: Db, lemmas: seq<string>, site: Option<string>)
    ensures forall i | 0 <= i < |FilterPagesByLemmas(db, lemmas, site)| ::
      ContainsAll(FilterPagesByLemmas(db, lemmas, site)[i].content, lemmas)
  {
    var pages := FilterPagesByLemmas(db, lemmas, site);
    forall i | 0 <= i < |pages| ensures ContainsAll(pages[i].content, lemmas) {
      assert pages[i] in pages;
    }
  }

  /** The service method: the three checks, the page selection, the relevance
      loop, then sorting and the window. */
  method Search(db: Db, query: Option<string>, site: Option<string>, offset: int, limit: int, parse: string -> Option<Url>)
    returns (r: Result<seq<Dto>>)
    ensures r == SearchSpec(db, query, site, offset, limit, parse)
  {
    if query.None? || IsBlank(query.value) {
      return Err(Exception(IllegalArgument, BlankQueryMessage));
    }
    var lemmas := ExtractLemmas(query.value);
    if lemmas == [] {
      return Err(Exception(IllegalArgument, NoLemmasMessage(query.value)));
    }
    if site.Some? && site.value != [] {
      if SiteByUrl(db.sites, site.value).None? {
        return Err(Exception(IllegalArgument, SiteNotIndexedMessage(site.value)));
      }
    }
    var pages := FilterPagesByLemmas(db, lemmas, site);
    QueryLemmasScore(query.value);
    FilteredPagesContainAll(db, lemmas, site);
    var results := CalculateRelevance(db.sites, pages, lemmas, parse);
    if results.Err? {
      return Err(results.error);
    }
    if results.value == [] {
      return Ok([]);
    }
    r := Paginate(SortByRelevance(results.value), offset, limit);
  }

  /** The three checks come first: a blank query, a query without lemmas, or an
      unknown site is rejected with IllegalArgumentException and its message. */
  lemma SearchRejectsBadRequests(db: Db, query: Option<string>, site: Option<string>, offset: int, limit: int, parse: string -> Option<Url>)
    ensures query.None? || IsBlank(query.value) ==>
      SearchSpec(db, query, site, offset, limit, parse) == Err(Exception(IllegalArgument, BlankQueryMessage))
    ensures query.Some? && !IsBlank(query.value) && ExtractLemmas(query.value) == [] ==>
      SearchSpec(db, query, site, offset, limit, parse) == Err(Exception(IllegalArgument, NoLemmasMessage(query.value)))
    ensures query.Some? && !IsBlank(query.value) && ExtractLemmas(query.value) != [] &&
            site.Some? && site.value != [] && SiteByUrl(db.sites, site.value).None? ==>
      SearchSpec(db, query, site, offset, limit, parse) == Err(Exception(IllegalArgument, SiteNotIndexedMessage(site.value)))
  {
  }

  /** A request that passes the checks answers exactly as `Answer` says. */
  lemma SearchAccepts(db: Db, query: string, site: Option<string>, offset: int, limit: int, parse: string -> Option<Url>)
    requires !IsBlank(query) && ExtractLemmas(query) != []
    requires site.None? || site.value == [] || SiteByUrl(db.sites, site.value).Some?
    ensures ScoringLemmas(ExtractLemmas(query))
    ensures SearchSpec(db, Some(query), site, offset, limit, parse) == Answer(db, ExtractLemmas(query), site, offset, limit, parse)
  {
    QueryLemmasScore(query);
  }

  /** When no page matches, the answer is the empty list whatever offset and
      limit are: the emptiness check comes before `skip` and `limit`. */
  lemma NoMatchesIgnoresWindow(db: Db, lemmas: seq<string>, site: Option<string>, offset: int, limit: int, parse: string -> Option<Url>)
    requires ScoringLemmas(lemmas) && |lemmas| > 0
    requires FilterPagesByLemmas(db, lemmas, site) == []
    ensures Answer(db, lemmas, site, offset, limit, parse) == Ok([])
  {
    FilteredPagesContainAll(db, lemmas, site);
    assert Relevance(db.sites, [], lemmas, parse) == Ok([]);
  }

  /** What a successful search promises about its answer `r` over `n`
      matching pages: highest relevance first, each relevance in (0, 1], the
      first window starting at 1, and `limit` hits or fewer at the end. */
  predicate RankedAnswer(r: seq<Dto>, n: nat, offset: int, limit: int) {
    NonIncreasing(r) &&
    (forall i | 0 <= i < |r| :: 0.0 < r[i].relevance <= 1.0) &&
    (offset == 0 && r != [] ==> r[0].relevance == 1.0) &&
    |r| == if n == 0 then 0 else Min(limit, Max(0, n - offset))
  }

  /** The window of the sorted hits: highest relevance first, each relevance
      in (0, 1], `limit` hits or fewer at the end, and relevance 1 first when
      the window starts at the top. */
  lemma {:induction false} WindowOfSortedHits(hits: seq<Dto>, offset: int, limit: int)
    requires forall i | 0 <= i < |hits| :: 0.0 < hits[i].relevance <= 1.0
    requires hits != [] ==> exists i | 0 <= i < |hits| :: hits[i].relevance == 1.0
    requires Paginate(SortByRelevance(hits), offset, limit).Ok?
    ensures RankedAnswer(Paginate(SortByRelevance(hits), offset, limit).value, |hits|, offset, limit)
  {
    var sorted := SortByRelevance(hits);
    SortByRelevanceSpec(hits);
    SortedRelevanceBounds(hits, sorted);
    WindowOfRanked(sorted, offset, limit);
  }

  /** Sorting relevances in (0, 1], one of them 1, keeps the bounds and puts a
      1 first. */
  lemma SortedRelevanceBounds(hits: seq<Dto>, sorted: seq<Dto>)
    requires multiset(sorted) == multiset(hits) && NonIncreasing(sorted)
    requires forall i | 0 <= i < |hits| :: 0.0 < hits[i].relevance <= 1.0
    requires hits != [] ==> exists i | 0 <= i < |hits| :: hits[i].relevance == 1.0
    ensures |sorted| == |hits|
    ensures forall i | 0 <= i < |sorted| :: 0.0 < sorted[i].relevance <= 1.0
    ensures sorted != [] ==> sorted[0].relevance == 1.0
  {
    assert |multiset(sorted)| == |multiset(hits)|;
    forall i | 0 <= i < |sorted| ensures 0.0 < sorted[i].relevance <= 1.0 {
      assert sorted[i] in multiset(hits);
    }
    if sorted != [] {
      var k :| 0 <= k < |hits| && hits[k].relevance == 1.0;
      assert hits[k] in multiset(sorted);
      var m :| 0 <= m < |sorted| && sorted[m] == hits[k];
      assert sorted[0].relevance >= sorted[m].relevance;
    }
  }

  /** A window of a ranked list is ranked. */
  lemma WindowOfRanked(sorted: seq<Dto>, offset: int, limit: int)
    requires NonIncreasing(sorted)
    requires forall i | 0 <= i < |sorted| :: 0.0 < sorted[i].relevance <= 1.0
    requires sorted != [] ==> sorted[0].relevance == 1.0
    requires Paginate(sorted, offset, limit).Ok?
    ensures RankedAnswer(Paginate(sorted, offset, limit).value, |sorted|, offset, limit)
  {
    var r := Paginate(sorted, offset, limit).value;
    forall i, j | 0 <= i < j < |r| ensures r[i].relevance >= r[j].relevance {
      assert r[i] == sorted[offset + i] && r[j] == sorted[offset + j];
    }
    forall i | 0 <= i < |r| ensures 0.0 < r[i].relevance <= 1.0 {
      assert r[i] == sorted[offset + i];
    }
  }

  lemma RankedWindowSpec(sites: seq<SiteRow>, pages: seq<PageRow>, lemmas: seq<string>, offset: int, limit: int, parse: string -> Option<Url>)
    requires RelevanceInputs(pages, lemmas)
    requires RankedWindow(sites, pages, lemmas, offset, limit, parse).Ok?
    ensures RankedAnswer(RankedWindow(sites, pages, lemmas, offset, limit, parse).value, |pages|, offset, limit)
  {
    RelevanceSpec(sites, pages, lemmas, parse);
    var hits := Relevance(sites, pages, lemmas, parse).value;
    assert |hits| == |pages|;
    if hits == [] {
      assert RankedWindow(sites, pages, lemmas, offset, limit, parse).value == [];
    } else {
      assert RankedWindow(sites, pages, lemmas, offset, limit, parse) == Paginate(SortByRelevance(hits), offset, limit);
      WindowOfSortedHits(hits, offset, limit);
    }
  }

  /** A successful search returns a window of the hits of the matching pages,
      highest relevance first, each relevance in (0, 1]; the window has `limit`
      hits, or fewer at the end; the first window starts with relevance 1. */
  lemma SearchResultsRanked(db: Db, query: string, site: Option<string>, offset: int, limit: int, parse: string -> Option<Url>)
    requires SearchSpec(db, Some(query), site, offset, limit, parse).Ok?
    ensures RankedAnswer(SearchSpec(db, Some(query), site, offset, limit, parse).value,
                         |FilterPagesByLemmas(db, ExtractLemmas(query), site)|, offset, limit)
  {
    var lemmas := ExtractLemmas(query);
    assert !IsBlank(query) && lemmas != [];
    assert site.None? || site.value == [] || SiteByUrl(db.sites, site.value).Some?;
    SearchAccepts(db, query, site, offset, limit, parse);
    var pages := FilterPagesByLemmas(db, lemmas, site);
    FilteredPagesContainAll(db, lemmas, site);
    assert SearchSpec(db, Some(query), site, offset, limit, parse) == RankedWindow(db.sites, pages, lemmas, offset, limit, parse);
    RankedWindowSpec(db.sites, pages, lemmas, offset, limit, parse);
  }
}
