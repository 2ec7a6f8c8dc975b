/** SearchResultDTO: one search hit as sent to the front end, with its three
    constructors, the defaults they fall back on, and field-wise equality.
    A Java `null` string is `None`; `site` and `uri` are the two fields a
    constructor can leave null. */
module SearchResultDto {
  import opened Common

  const DefaultTitle: string := "Без названия"
  const UnknownSiteName: string := "Неизвестный сайт"

  datatype Dto = Dto(
    site: Option<string>,
    uri: Option<string>,
    title: string,
    snippet: string,
    relevance: real,
    siteName: string,
    fileName: string)

  /** searchengine.model.SearchResult, every string nullable. */
  datatype SearchResult = SearchResult(
    site: Option<string>,
    siteName: Option<string>,
    uri: Option<string>,
    title: Option<string>,
    snippet: Option<string>,
    relevance: real,
    fileName: Option<string>)

  /** `Objects.requireNonNullElse(value, fallback)`. */
  function OrElse(value: Option<string>, fallback: string): (r: string)
    ensures value.Some? ==> r == value.value
    ensures value.None? ==> r == fallback
  {
    match value
    case Some(v) => v
    case None => fallback
  }

  /** `initializeDefaults()`, which the no-argument constructor runs. */
  function Default(): (d: Dto)
    ensures d.site == Some("") && d.uri == Some("") && d.relevance == 0.0
    ensures d.title == DefaultTitle && d.siteName == UnknownSiteName
    ensures d.snippet == "" && d.fileName == ""
  {
    Dto(Some(""), Some(""), DefaultTitle, "", 0.0, UnknownSiteName, "")
  }

  /** The private `extractBaseUrl(path)`: protocol and host, or the path itself
      when it does not parse (a null path does not parse either). */
  function BaseUrlOf(parse: string -> Option<Url>, path: Option<string>): (r: Option<string>)
  {
    match path
    case None => None
    case Some(p) =>
      match parse(p)
      case Some(u) => Some(u.protocol + "://" + u.host)
      case None => Some(p)
  }

  /** The private `extractRelativeUrl(path)`: path plus "?query", or "" when the
      path does not parse. */
  function RelativeUrlOf(parse: string -> Option<Url>, path: Option<string>): (r: string)
  {
    match path
    case None => ""
    case Some(p) =>
      match parse(p)
      case Some(u) => u.path + (if u.query.Some? then "?" + u.query.value else "")
      case None => ""
  }

  /** `new SearchResultDTO(searchResult)`. */
  function FromSearchResult(parse: string -> Option<Url>, result: Option<SearchResult>): (d: Dto)
    ensures d.relevance == 0.0
    ensures result.None? ==> d == Default()
    ensures result.Some? ==>
      d.title == OrElse(result.value.title, DefaultTitle) &&
      d.snippet == OrElse(result.value.snippet, "") &&
      d.siteName == OrElse(result.value.siteName, UnknownSiteName) &&
      d.fileName == OrElse(result.value.fileName, "")
  {
    match result
    case None => Default()
    case Some(sr) =>
      Dto(
        BaseUrlOf(parse, sr.uri),
        Some(RelativeUrlOf(parse, sr.uri)),
        OrElse(sr.title, DefaultTitle),
        OrElse(sr.snippet, ""),
        0.0,
        OrElse(sr.siteName, UnknownSiteName),
        OrElse(sr.fileName, ""))
  }

  /** The seven-argument constructor. */
  function Create(
    baseUrl: Option<string>, relativeUri: Option<string>, title: Option<string>, snippet: Option<string>,
    relevance: real, siteName: Option<string>, fileName: Option<string>): (d: Dto)
    ensures d.site == baseUrl && d.uri == relativeUri && d.relevance == relevance
    ensures d.title == OrElse(title, DefaultTitle) && d.snippet == OrElse(snippet, "")
    ensures d.siteName == OrElse(siteName, UnknownSiteName) && d.fileName == OrElse(fileName, "")
  {
    Dto(baseUrl, relativeUri, OrElse(title, DefaultTitle), OrElse(snippet, ""), relevance,
        OrElse(siteName, UnknownSiteName), OrElse(fileName, ""))
  }

  /** `a.equals(o)`. `sameReference` is `this == o`. The fields are compared in
      the source's order, so a null `site` or `uri` on the receiver throws
      NullPointerException once the comparisons before it have passed. */
  function Equals(a: Dto, o: Option<Dto>, sameReference: bool): Result<bool>
  {
    if sameReference then Ok(true)
    else if o.None? then Ok(false)
    else
      var b := o.value;
      if b.relevance != a.relevance then Ok(false)
      else if a.site.None? then Err(Exception(NullPointer, "Cannot invoke \"String.equals(Object)\" because \"this.site\" is null"))
      else if a.site != b.site then Ok(false)
      else if a.uri.None? then Err(Exception(NullPointer, "Cannot invoke \"String.equals(Object)\" because \"this.uri\" is null"))
      else Ok(a.uri == b.uri && a.title == b.title && a.snippet == b.snippet &&
              a.siteName == b.siteName && a.fileName == b.fileName)
  }

  predicate NonNullKeys(d: Dto) {
    d.site.Some? && d.uri.Some?
  }

  /** Between DTOs whose receiver has site and uri set, equals holds exactly
      when all seven fields are equal, and never with null. */
  lemma EqualsIffSameFields(a: Dto, b: Dto)
    requires NonNullKeys(a)
    ensures Equals(a, Some(b), false) == Ok(a == b)
    ensures Equals(a, None, false) == Ok(false)
  {
    if a.relevance == b.relevance && a.site == b.site && a.uri == b.uri && a.title == b.title &&
       a.snippet == b.snippet && a.siteName == b.siteName && a.fileName == b.fileName {
      assert a == b;
    }
  }

  /** Reflexive: a reference is equal to itself, and so is a copy whose site
      and uri are set. */
  lemma EqualsReflexive(a: Dto, sameReference: bool)
    requires sameReference || NonNullKeys(a)
    ensures Equals(a, Some(a), sameReference) == Ok(true)
  {
  }

  /** Symmetric on DTOs whose site and uri are set. */
  lemma EqualsSymmetric(a: Dto, b: Dto)
    requires NonNullKeys(a) && NonNullKeys(b)
    ensures Equals(a, Some(b), false) == Equals(b, Some(a), false)
  {
    EqualsIffSameFields(a, b);
    EqualsIffSameFields(b, a);
  }

  /** A copy with a null site is not equal to itself: equals throws. */
  lemma NullSiteThrows(a: Dto)
    requires a.site.None?
    ensures Equals(a, Some(a), false).Err?
    ensures Equals(a, Some(a), false).error.kind == NullPointer
  {
  }

  /** Every DTO the constructors build from a SearchResult has a non-null uri,
      and a non-null site unless the SearchResult's uri was null. */
  lemma FromSearchResultKeys(parse: string -> Option<Url>, result: Option<SearchResult>)
    ensures FromSearchResult(parse, result).uri.Some?
    ensures result.None? || result.value.uri.Some? ==> NonNullKeys(FromSearchResult(parse, result))
  {
  }

  /** Feeding a DTO's own fields back to the seven-argument constructor gives
      the same DTO: none of its strings is replaced by a default. */
  lemma CreateFromOwnFields(d: Dto)
    ensures Create(d.site, d.uri, Some(d.title), Some(d.snippet), d.relevance, Some(d.siteName), Some(d.fileName)) == d
  {
  }

  /** With every nullable argument null, the seven-argument constructor gives the
      defaults except for site and uri, which stay null, and relevance, which is
      copied. */
  lemma CreateFromNulls(relevance: real)
    ensures Create(None, None, None, None, relevance, None, None) ==
            Default().(site := None, uri := None, relevance := relevance)
  {
  }
}
