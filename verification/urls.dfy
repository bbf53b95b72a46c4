/** URL handling in the scraper: the slug used as a page's identity
    (`has_url_in`, scraper.py) and the sitemap test on a URL's extension. */
module Urls {
  import opened Results
  import opened Strings

  /** The last `/`-piece of `url`, or the one before it when the URL ends in `/`.
      An empty URL has a single empty piece and nothing before it: IndexError. */
  function Slug(url: string): (r: Result<string>)
    ensures r.Raised? <==> url == ""
    ensures r.Raised? ==> r.error == IndexError
    ensures r.Ok? ==> '/' !in r.value && r.value in Split(url, '/')
  {
    var parts := Split(url, '/');
    if parts[|parts| - 1] != "" then Ok(parts[|parts| - 1])
    else if |parts| >= 2 then Ok(parts[|parts| - 2])
    else
      SplitJoin(url, '/');
      Raised(IndexError)
  }

  /** `slug` equals some `/`-piece of some URL in `urls`. */
  predicate SlugIn(slug: string, urls: seq<string>) {
    exists i :: 0 <= i < |urls| && slug in Split(urls[i], '/')
  }

  /** What `has_url_in(url, urls)` returns or raises. */
  function SlugRegistered(url: string, urls: seq<string>): (r: Result<bool>)
    ensures r.Raised? <==> url == ""
  {
    match Slug(url)
    case Raised(e) => Raised(e)
    case Ok(slug) => Ok(SlugIn(slug, urls))
  }

  /** The loop of `has_url_in`: scan the registered URLs, stop at the first whose
      pieces hold the slug. */
  method HasUrlIn(url: string, urls: seq<string>) returns (r: Result<bool>)
    ensures r == SlugRegistered(url, urls)
    ensures r.Raised? <==> url == ""
    ensures r.Ok? ==> (r.value <==> exists i :: 0 <= i < |urls| && Slug(url).value in Split(urls[i], '/'))
    ensures url != "" && urls == [] ==> r == Ok(false)
  {
    var slug := Slug(url);
    if slug.Raised? {
      return Raised(slug.error);
    }
    var visited := false;
    var i := 0;
    while i < |urls|
      invariant 0 <= i <= |urls|
      invariant visited <==> i > 0 && slug.value in Split(urls[i - 1], '/')
      invariant !visited ==> forall j :: 0 <= j < i - 1 ==> slug.value !in Split(urls[j], '/')
    {
      visited := slug.value in Split(urls[i], '/');
      i := i + 1;
      if visited {
        break;
      }
    }
    return Ok(visited);
  }

  /** The slug of a URL not ending in `/` is its longest `/`-free suffix; the slug of
      one ending in `/` is the longest `/`-free suffix of the URL without that slash. */
  lemma SlugIsLastSegment(url: string)
    requires url != ""
    ensures var slug := Slug(url).value;
            var body := if url[|url| - 1] == '/' then url[..|url| - 1] else url;
            && |slug| <= |body|
            && slug == body[|body| - |slug|..]
            && (|slug| == |body| || body[|body| - |slug| - 1] == '/')
  {
    var body := if url[|url| - 1] == '/' then url[..|url| - 1] else url;
    SlugOfBody(url);
    SplitLast(body, '/');
  }

  /** The slug is the last `/`-piece of the URL without its trailing `/`, if any. */
  lemma SlugOfBody(url: string)
    requires url != ""
    ensures var body := if url[|url| - 1] == '/' then url[..|url| - 1] else url;
            var pieces := Split(body, '/');
            Slug(url) == Ok(pieces[|pieces| - 1])
  {
    var init := url[..|url| - 1];
    var c := url[|url| - 1];
    assert url == init + [c];
    SplitSnoc(init, c, '/');
  }

  /** Once a URL is registered, any URL with the same slug is found. */
  lemma SameSlugRegistered(a: string, b: string, urls: seq<string>)
    requires Slug(a).Ok? && Slug(a) == Slug(b)
    requires a in urls
    ensures SlugRegistered(b, urls) == Ok(true)
  {
    var i :| 0 <= i < |urls| && urls[i] == a;
    assert Slug(b).value in Split(urls[i], '/');
  }

  /** Registration only grows when more URLs are registered. */
  lemma SlugInMonotone(slug: string, urls: seq<string>, more: seq<string>)
    requires SlugIn(slug, urls)
    ensures SlugIn(slug, urls + more)
  {
    var i :| 0 <= i < |urls| && slug in Split(urls[i], '/');
    assert (urls + more)[i] == urls[i];
  }

  /** No URL's slug is a piece of a URL listed before it. The slug test before
      enqueueing keeps `urls_to_visit` this way, and the visited guard keeps
      `visited_links` this way. */
  predicate SlugFresh(urls: seq<string>) {
    forall j :: 0 <= j < |urls| ==> SlugRegistered(urls[j], urls[..j]) == Ok(false)
  }

  /** A slug-fresh list holds no empty URL and no two URLs with the same slug, so in
      particular no URL twice. */
  lemma SlugFreshDistinct(urls: seq<string>)
    requires SlugFresh(urls)
    ensures forall j :: 0 <= j < |urls| ==> urls[j] != ""
    ensures forall i, j :: 0 <= i < j < |urls| ==> Slug(urls[i]) != Slug(urls[j])
    ensures forall i, j :: 0 <= i < j < |urls| ==> urls[i] != urls[j]
  {
    forall i, j | 0 <= i < j < |urls|
      ensures Slug(urls[i]) != Slug(urls[j])
    {
      assert SlugRegistered(urls[i], urls[..i]) == Ok(false);
      assert SlugRegistered(urls[j], urls[..j]) == Ok(false);
      assert urls[..j][i] == urls[i];
    }
  }

  /** Appending a URL whose slug is not registered keeps the list slug-fresh. */
  lemma SlugFreshAppend(urls: seq<string>, url: string)
    requires SlugFresh(urls) && SlugRegistered(url, urls) == Ok(false)
    ensures SlugFresh(urls + [url])
  {
    var longer := urls + [url];
    forall j | 0 <= j < |longer|
      ensures SlugRegistered(longer[j], longer[..j]) == Ok(false)
    {
      if j < |urls| {
        assert longer[..j] == urls[..j];
      } else {
        assert longer[..j] == urls;
      }
    }
  }

  /** `url.split(".")[-1] == "xml"`: the page is fetched and parsed as a sitemap. */
  function IsXml(url: string): bool {
    var parts := Split(url, '.');
    parts[|parts| - 1] == "xml"
  }

  /** The sitemap test holds exactly for URLs ending in `.xml`, and for the bare
      string `xml`, which has no dot but whose only piece is `xml`. */
  lemma IsXmlIffSuffix(url: string)
    ensures IsXml(url) <==> url == "xml" || (|url| >= 4 && url[|url| - 4..] == ".xml")
  {
    SplitLast(url, '.');
    var parts := Split(url, '.');
    var last := parts[|parts| - 1];
    assert '.' !in last;
    if |url| >= 4 && url[|url| - 4..] == ".xml" {
      assert forall k :: |url| - |last| <= k < |url| ==> url[k] == last[k - (|url| - |last|)];
      assert forall k :: |url| - 3 <= k < |url| ==> url[k] != '.';
      assert forall k :: 0 <= k < |last| ==> last[k] != '.';
      assert url[|url| - 4] == '.';
    }
  }
}
