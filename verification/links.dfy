/** Link discovery and the filter chain, `parse_blog_pages_links` in scraper.py. */
module Links {
  import opened Results
  import opened Strings
  import opened Urls
  import opened Document
  import opened Scraper

  /** A candidate holding any of these is never queued. */
  const DeniedSubstrings: seq<string> :=
    ["category", "services", "autor", "wp-content", "portfolio", "br", ".png", ".jpg", ".gif"]

  /** Root and utility pages that are never queued. */
  const ExcludedUrls: seq<string> := [
    "https://cheesecakelabs.com/blog/",
    "https://cheesecakelabs.com/blog/br/",
    "https://cheesecakelabs.com/blog/blog/",
    "https://cheesecakelabs.com/blog/contact/",
    "https://cheesecakelabs.com/blog/br/carreiras/",
    "https://cheesecakelabs.com/blog/br/contato/",
    "https://cheesecakelabs.com/blog/careers/"
  ]

  /** The cleaning of a pattern match: drop every `"`, then every `>`, then every
      `<`, and keep what comes before the first `#`. */
  function Clean(m: string): (r: string)
    ensures '"' !in r && '>' !in r && '<' !in r && '#' !in r
    ensures var stripped := Strip(Strip(Strip(m, '"'), '>'), '<');
            r <= stripped && (r == stripped || stripped[|r|] == '#')
  {
    var once := Strip(m, '"');
    var twice := Strip(once, '>');
    var stripped := Strip(twice, '<');
    assert multiset(twice)['"'] == 0;
    assert multiset(stripped)['"'] == 0 && multiset(stripped)['>'] == 0;
    CutAt(stripped, '#')
  }

  /** Cleaning a cleaned link changes nothing. */
  lemma CleanIdempotent(m: string)
    ensures Clean(Clean(m)) == Clean(m)
  {
    var c := Clean(m);
    StripAbsent(c, '"');
    StripAbsent(c, '>');
    StripAbsent(c, '<');
    CutAtAbsent(c, '#');
  }

  /** The substring deny-list and the exact-match exclusions both let `c` through. */
  predicate PassesFilters(c: string) {
    && (forall k :: 0 <= k < |DeniedSubstrings| ==> !IsSubstring(DeniedSubstrings[k], c))
    && c !in ExcludedUrls
  }

  /** `all(filters)` for candidate `c` against the queue as it stands. The slug test
      comes first and raises IndexError on an empty candidate. */
  function Admit(queue: seq<string>, c: string): (r: Result<bool>)
    ensures r.Raised? <==> c == ""
    ensures r == Ok(true) <==> SlugRegistered(c, queue) == Ok(false) && PassesFilters(c)
  {
    match SlugRegistered(c, queue)
    case Raised(e) => Raised(e)
    case Ok(registered) => Ok(!registered && PassesFilters(c))
  }

  /** How many of `matches` found something. */
  function SomeCount(matches: seq<Option<string>>): nat {
    if |matches| == 0 then 0 else (if matches[0].Some? then 1 else 0) + SomeCount(matches[1..])
  }

  /** The cleaned first matches of the elements that have one, in document order. */
  function Candidates(matches: seq<Option<string>>): (r: seq<string>)
    ensures |r| == SomeCount(matches)
    ensures forall c :: c in r ==> '#' !in c
  {
    if |matches| == 0 then []
    else
      (match matches[0] case None => [] case Some(m) => [Clean(m)]) + Candidates(matches[1..])
  }

  /** The match of element `j`, when there is one, becomes the candidate at the
      position given by the number of matches before it. */
  lemma {:induction false} CandidateAt(matches: seq<Option<string>>, j: nat)
    requires j < |matches| && matches[j].Some?
    ensures SomeCount(matches[..j]) < |Candidates(matches)|
    ensures Candidates(matches)[SomeCount(matches[..j])] == Clean(matches[j].value)
    decreases j
  {
    var rest := matches[1..];
    var head: seq<string> := if matches[0].Some? then [Clean(matches[0].value)] else [];
    assert Candidates(matches) == head + Candidates(rest);
    if j == 0 {
      assert matches[..0] == [];
    } else {
      CandidateAt(rest, j - 1);
      assert matches[..j][0] == matches[0] && matches[..j][1..] == rest[..j - 1];
      assert SomeCount(matches[..j]) == |head| + SomeCount(rest[..j - 1]);
    }
  }

  /** One candidate per match, cleaned, in document order. */
  lemma CandidatesInOrder(matches: seq<Option<string>>)
    ensures forall j :: 0 <= j < |matches| && matches[j].Some? ==>
              && SomeCount(matches[..j]) < |Candidates(matches)|
              && Candidates(matches)[SomeCount(matches[..j])] == Clean(matches[j].value)
  {
    forall j | 0 <= j < |matches| && matches[j].Some?
      ensures && SomeCount(matches[..j]) < |Candidates(matches)|
              && Candidates(matches)[SomeCount(matches[..j])] == Clean(matches[j].value)
    {
      CandidateAt(matches, j);
    }
  }

  /** The loop over the candidates: each admitted one is appended at once, so later
      candidates are checked against it too. */
  function Enqueue(queue: seq<string>, candidates: seq<string>): (r: Result<seq<string>>)
    ensures r.Raised? <==> "" in candidates
    ensures r.Ok? ==> queue <= r.value
    ensures r.Ok? ==> forall i :: |queue| <= i < |r.value| ==>
                        r.value[i] in candidates && Admit(r.value[..i], r.value[i]) == Ok(true)
    decreases |candidates|
  {
    if |candidates| == 0 then Ok(queue)
    else
      var c := candidates[0];
      assert candidates == [c] + candidates[1..];
      match Admit(queue, c)
      case Raised(e) => Raised(e)
      case Ok(admitted) =>
        var next := if admitted then queue + [c] else queue;
        var r := Enqueue(next, candidates[1..]);
        if r.Ok? && admitted then
          SnocPrefix(queue, c, r.value);
          r
        else r
  }

  /** The loop one candidate further: a candidate admitted at its turn, against
      the queue as the earlier candidates left it, is appended; otherwise the queue
      stays. So of two candidates with one slug, the earlier one is queued. */
  lemma {:induction false} EnqueueSnoc(queue: seq<string>, candidates: seq<string>, c: string)
    requires "" !in candidates && c != ""
    ensures var q := Enqueue(queue, candidates).value;
            Enqueue(queue, candidates + [c]) == Ok(if Admit(q, c) == Ok(true) then q + [c] else q)
    decreases |candidates|
  {
    if |candidates| == 0 {
      assert candidates + [c] == [c];
      assert [c][1..] == [];
    } else {
      var d := candidates[0];
      var next := if Admit(queue, d) == Ok(true) then queue + [d] else queue;
      assert (candidates + [c])[0] == d;
      assert (candidates + [c])[1..] == candidates[1..] + [c];
      EnqueueSnoc(next, candidates[1..], c);
    }
  }

  /** A list that extends `queue + [c]` extends `queue`. */
  lemma SnocPrefix(queue: seq<string>, c: string, longer: seq<string>)
    requires queue + [c] <= longer
    ensures queue <= longer
  {
    assert longer[..|queue|] == (queue + [c])[..|queue|];
  }

  /** `a` is a subsequence of `b`. */
  predicate IsSubsequence(a: seq<string>, b: seq<string>) {
    |a| == 0 || (|b| > 0 && ((a[0] == b[0] && IsSubsequence(a[1..], b[1..])) || IsSubsequence(a, b[1..])))
  }

  /** The queued links keep the order in which they appear on the page. */
  lemma {:induction false} EnqueueKeepsOrder(queue: seq<string>, candidates: seq<string>)
    requires "" !in candidates
    ensures IsSubsequence(Enqueue(queue, candidates).value[|queue|..], candidates)
    decreases |candidates|
  {
    var r := Enqueue(queue, candidates).value;
    if |candidates| > 0 {
      var c := candidates[0];
      if Admit(queue, c) == Ok(true) {
        EnqueueKeepsOrder(queue + [c], candidates[1..]);
        assert r[|queue|..][1..] == r[|queue + [c]|..];
        assert r[|queue|..][0] == c;
      } else {
        EnqueueKeepsOrder(queue, candidates[1..]);
      }
    }
  }

  /** A slug registered in a list stays registered in every extension of it. */
  lemma RegisteredInExtension(slug: string, queue: seq<string>, longer: seq<string>)
    requires queue <= longer && SlugIn(slug, queue)
    ensures SlugIn(slug, longer)
  {
    var i :| 0 <= i < |queue| && slug in Split(queue[i], '/');
    assert longer[i] == queue[i];
  }

  /** After the first candidate is handled, it is registered if it passes the filters. */
  lemma HeadRegistered(queue: seq<string>, c: string)
    requires c != "" && PassesFilters(c)
    ensures var next := if Admit(queue, c) == Ok(true) then queue + [c] else queue;
            SlugIn(Slug(c).value, next)
  {
    var slug := Slug(c).value;
    if Admit(queue, c) == Ok(true) {
      assert (queue + [c])[|queue|] == c;
    }
  }

  /** Nothing acceptable is lost: every candidate that passes the filters ends up
      registered in the queue, either queued itself or matched by its slug. */
  lemma {:induction false} EnqueueComplete(queue: seq<string>, candidates: seq<string>)
    requires "" !in candidates
    ensures forall c :: c in candidates ==>
              !PassesFilters(c) || SlugRegistered(c, Enqueue(queue, candidates).value) == Ok(true)
    decreases |candidates|
  {
    if |candidates| > 0 {
      var c := candidates[0];
      var rest := candidates[1..];
      assert candidates == [c] + rest;
      var next := if Admit(queue, c) == Ok(true) then queue + [c] else queue;
      var r := Enqueue(next, rest);
      assert Enqueue(queue, candidates) == r;
      EnqueueComplete(next, rest);
      if PassesFilters(c) {
        HeadRegistered(queue, c);
        RegisteredInExtension(Slug(c).value, next, r.value);
      }
    }
  }

  /** Two candidates with the same slug add at most one queue entry. */
  lemma SameSlugQueuedOnce(queue: seq<string>, a: string, b: string)
    requires Slug(a).Ok? && Slug(a) == Slug(b)
    requires Enqueue(queue, [a, b]).Ok?
    ensures |Enqueue(queue, [a, b]).value| <= |queue| + 1
  {
    assert [a, b][1..] == [b];
    assert [b][1..] == [];
    if Admit(queue, a) == Ok(true) {
      SameSlugRegistered(a, b, queue + [a]);
      assert Enqueue(queue, [a, b]) == Enqueue(queue + [a], [b]);
      assert Enqueue(queue + [a], [b]) == Ok(queue + [a]);
    } else {
      assert Enqueue(queue, [a, b]) == Enqueue(queue, [b]);
      assert Enqueue(queue, [b]).value <= queue + [b];
    }
  }

  /** The elements that carry links: `loc` in a sitemap, `a` in a page. */
  function LinkTag(isXml: bool): string {
    if isXml then "loc" else "a"
  }

  /** How many of `es` have tag `tag`. */
  function TagCount(es: seq<Element>, tag: string): nat {
    if |es| == 0 then 0 else (if es[0].tag == tag then 1 else 0) + TagCount(es[1..], tag)
  }

  /** The first pattern match in the markup of each `loc` element (sitemap) or
      `a` element (page), in document order. */
  function LinkMatches(es: seq<Element>, isXml: bool, firstMatch: (bool, string) -> Option<string>): (r: seq<Option<string>>)
    ensures |r| == TagCount(es, LinkTag(isXml))
  {
    if |es| == 0 then []
    else
      (if es[0].tag == LinkTag(isXml) then [firstMatch(isXml, es[0].markup)] else [])
      + LinkMatches(es[1..], isXml, firstMatch)
  }

  /** Element `j`, when it carries links, contributes its first match at the
      position given by the number of such elements before it: one match per
      `loc`/`a` element, in document order. */
  lemma {:induction false} LinkMatchesInOrder(es: seq<Element>, isXml: bool,
                                              firstMatch: (bool, string) -> Option<string>)
    ensures forall j :: 0 <= j < |es| && es[j].tag == LinkTag(isXml) ==>
              && TagCount(es[..j], LinkTag(isXml)) < |LinkMatches(es, isXml, firstMatch)|
              && LinkMatches(es, isXml, firstMatch)[TagCount(es[..j], LinkTag(isXml))]
                 == firstMatch(isXml, es[j].markup)
    decreases |es|
  {
    if |es| > 0 {
      var tag := LinkTag(isXml);
      var rest := es[1..];
      LinkMatchesInOrder(rest, isXml, firstMatch);
      var h := if es[0].tag == tag then 1 else 0;
      var head := if es[0].tag == tag then [firstMatch(isXml, es[0].markup)] else [];
      assert LinkMatches(es, isXml, firstMatch) == head + LinkMatches(rest, isXml, firstMatch);
      forall j | 0 <= j < |es| && es[j].tag == tag
        ensures && TagCount(es[..j], tag) < |LinkMatches(es, isXml, firstMatch)|
                && LinkMatches(es, isXml, firstMatch)[TagCount(es[..j], tag)] == firstMatch(isXml, es[j].markup)
      {
        if j == 0 {
          assert es[..0] == [];
        } else {
          assert es[..j][0] == es[0] && es[..j][1..] == rest[..j - 1];
          assert es[j] == rest[j - 1];
          assert TagCount(es[..j], tag) == h + TagCount(rest[..j - 1], tag);
        }
      }
    }
  }

  /** What may be appended to `queue`: no fragment, a slug not yet registered in
      the queue, and passing the deny-list and the exclusion list. */
  predicate Admissible(queue: seq<string>, c: string) {
    && '#' !in c
    && SlugRegistered(c, queue) == Ok(false)
    && PassesFilters(c)
  }

  /** `parse_blog_pages_links`: queue the admitted candidates, then record the page as
      visited and advance the cursor by one. */
  function ParseBlogPagesLinks(st: State, page: Page, isXml: bool, url: string,
                               firstMatch: (bool, string) -> Option<string>): (r: Result<State>)
    ensures r.Raised? <==> "" in Candidates(LinkMatches(page.elements, isXml, firstMatch))
    ensures r.Ok? ==> r.value.visited == st.visited + [url]
    ensures r.Ok? ==> r.value.urlIndex == st.urlIndex + 1
    ensures r.Ok? ==> st.queue <= r.value.queue
    ensures r.Ok? ==> Enqueue(st.queue, Candidates(LinkMatches(page.elements, isXml, firstMatch))) == Ok(r.value.queue)
    ensures r.Ok? ==> r.value.databaseIndex == st.databaseIndex
    ensures r.Ok? ==> r.value.storeOnDatabase == st.storeOnDatabase
  {
    var candidates := Candidates(LinkMatches(page.elements, isXml, firstMatch));
    match Enqueue(st.queue, candidates)
    case Raised(e) => Raised(e)
    case Ok(queue) => Ok(st.(queue := queue, visited := st.visited + [url], urlIndex := st.urlIndex + 1))
  }

  /** Every entry the parse appends is admissible against the queue before it: no
      fragment, an unregistered slug, and through both filters. */
  lemma ParsedLinksAdmissible(st: State, page: Page, isXml: bool, url: string,
                              firstMatch: (bool, string) -> Option<string>)
    ensures var r := ParseBlogPagesLinks(st, page, isXml, url, firstMatch);
            r.Ok? ==> forall i :: |st.queue| <= i < |r.value.queue| ==>
                        Admissible(r.value.queue[..i], r.value.queue[i])
  {
  }

  /** Appending admissible entries keeps the queue slug-fresh. */
  lemma QueueStaysFresh(queue: seq<string>, longer: seq<string>)
    requires SlugFresh(queue) && queue <= longer
    requires forall i :: |queue| <= i < |longer| ==> Admissible(longer[..i], longer[i])
    ensures SlugFresh(longer)
  {
    forall j | 0 <= j < |longer|
      ensures SlugRegistered(longer[j], longer[..j]) == Ok(false)
    {
      if j < |queue| {
        assert longer[..j] == queue[..j];
        assert longer[j] == queue[j];
      }
    }
  }
}
