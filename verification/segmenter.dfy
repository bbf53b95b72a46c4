/** The content segmenter, `get_page_text` in scraper.py: the text of the `p` and
    `ul` siblings that follow the page's first `p`, grouped into chunks. */
module Segmenter {
  import opened Results
  import opened Strings
  import opened Document

  predicate IsContent(n: Node) {
    n.name == Some("p") || n.name == Some("ul")
  }

  predicate IsHeading(n: Node) {
    n.name == Some("h1") || n.name == Some("h2") || n.name == Some("h3")
  }

  /** A closed chunk is kept when it is longer than 80 characters and holds no
      `https://`; the code also asks for it to be non-empty, which the length implies. */
  predicate Keep(chunk: string) {
    chunk != "" && |chunk| > 80 && !IsSubstring("https://", chunk)
  }

  /** The loop of `get_page_text` from a given buffer and counter. A `p`/`ul` sibling
      adds its text and bumps the counter; a heading, or the counter reaching 3,
      closes the buffer, keeps it if `Keep` holds, and restarts at `""` and 1.
      Whatever is still buffered after the last sibling is dropped. The tab
      replacement of the source discards its result, so the kept text is the
      buffer unchanged; `Paragraphs` applies the replacement. */
  function Walk(siblings: seq<Node>, buffer: string, count: int): (r: seq<string>)
    ensures forall i :: 0 <= i < |r| ==> Keep(r[i])
    ensures |r| <= |siblings|
  {
    if |siblings| == 0 then []
    else
      var n := siblings[0];
      var buffer' := if IsContent(n) then buffer + n.text else buffer;
      var count' := if IsContent(n) then count + 1 else count;
      if IsHeading(n) || count' == 3 then
        (if Keep(buffer') then [buffer'] else []) + Walk(siblings[1..], "", 1)
      else Walk(siblings[1..], buffer', count')
  }

  predicate IsParagraphElement(e: Element) {
    e.tag == "p"
  }

  /** `get_page_text`: nothing when the page has no `p`; otherwise the walk over the
      siblings after the first `p`, which itself is never part of a chunk. */
  function PageText(page: Page): (r: seq<string>)
    ensures (forall i :: 0 <= i < |page.elements| ==> page.elements[i].tag != "p") ==> r == []
    ensures forall i :: 0 <= i < |r| ==> Keep(r[i])
  {
    match FirstIndex(page.elements, IsParagraphElement)
    case None => []
    case Some(i) => Walk(page.elements[i].nextSiblings, "", 1)
  }

  /** The loop of `get_page_text` as the source writes it. */
  method GetPageText(page: Page) returns (chunks: seq<string>)
    ensures chunks == PageText(page)
    ensures forall i :: 0 <= i < |chunks| ==> |chunks[i]| > 80 && !IsSubstring("https://", chunks[i])
  {
    chunks := [];
    var first := FirstIndex(page.elements, IsParagraphElement);
    if first.None? {
      return;
    }
    var siblings := page.elements[first.value].nextSiblings;
    var paragraph := "";
    var count := 1;
    var k := 0;
    while k < |siblings|
      invariant 0 <= k <= |siblings|
      invariant chunks + Walk(siblings[k..], paragraph, count) == Walk(siblings, "", 1)
    {
      var sibling := siblings[k];
      assert siblings[k..][0] == sibling && siblings[k..][1..] == siblings[k + 1..];
      ghost var before := Walk(siblings[k..], paragraph, count);
      var emitted: seq<string> := [];
      if IsContent(sibling) {
        paragraph := paragraph + sibling.text;
        count := count + 1;
      }
      if IsHeading(sibling) || count == 3 {
        if Keep(paragraph) {
          emitted := [paragraph];
        }
        paragraph := "";
        count := 1;
      }
      ghost var after := Walk(siblings[k + 1..], paragraph, count);
      assert before == emitted + after;
      ConcatAssociative(chunks, emitted, after);
      chunks := chunks + emitted;
      k := k + 1;
    }
    assert siblings[k..] == [];
    assert chunks == Walk(siblings, "", 1);
  }

  /** Every tab replaced by two spaces, every other character kept. */
  function ReplaceTabs(s: string): (r: string)
    ensures '\t' !in r
    ensures |r| == |s| + multiset(s)['\t']
    ensures '\t' !in s ==> r == s
    ensures forall c :: c != '\t' && c != ' ' ==> multiset(r)[c] == multiset(s)[c]
  {
    if |s| == 0 then ""
    else
      assert s == [s[0]] + s[1..];
      (if s[0] == '\t' then "  " else [s[0]]) + ReplaceTabs(s[1..])
  }

  /** Replacing in a concatenation replaces in each part, in place. */
  lemma {:induction false} ReplaceTabsAppend(a: string, b: string)
    ensures ReplaceTabs(a + b) == ReplaceTabs(a) + ReplaceTabs(b)
    decreases |a|
  {
    if |a| == 0 {
      assert a + b == b;
    } else {
      assert (a + b)[0] == a[0] && (a + b)[1..] == a[1..] + b;
      ReplaceTabsAppend(a[1..], b);
    }
  }

  /** A tab becomes two spaces; any other character stays. */
  lemma ReplaceTabsChar(x: char)
    ensures ReplaceTabs([x]) == if x == '\t' then "  " else [x]
  {
    assert [x][1..] == "";
  }

  /** The chunks of `get_page_text` with the tab replacement taking effect, as the
      discarded `replace` call evidently meant: the same chunks, in the same order,
      each with its tabs turned into two spaces. The records store these. */
  function Paragraphs(page: Page): (r: seq<string>)
    ensures |r| == |PageText(page)|
    ensures forall k :: 0 <= k < |r| ==> r[k] == ReplaceTabs(PageText(page)[k])
    ensures forall k :: 0 <= k < |r| ==>
              && '\t' !in r[k]
              && |r[k]| > 80
              && (('\t' !in PageText(page)[k]) ==> r[k] == PageText(page)[k])
  {
    var chunks := PageText(page);
    seq(|chunks|, k requires 0 <= k < |chunks| => ReplaceTabs(chunks[k]))
  }

  /** A string without `:` never holds `https://`. */
  lemma NoColonNoUrl(s: string)
    requires ':' !in s
    ensures !IsSubstring("https://", s)
  {
    forall i: nat | i <= |s|
      ensures !OccursAt("https://", s, i)
    {
      if i + 8 <= |s| {
        assert s[i + 5] != ':';
        assert s[i..i + 8][5] == s[i + 5];
      }
    }
  }

  /** As written, a tab in a kept chunk survives into the text: a page whose first
      `p` is followed by a `p` holding a tab and 80 letters, another `p` and an
      `h2` yields that chunk with its tab. The corrected text has none. */
  lemma TabSurvivesAsWritten()
    ensures PageText(TabPage()) == [TabChunk()]
    ensures '\t' in PageText(TabPage())[0]
    ensures '\t' !in Paragraphs(TabPage())[0]
  {
    var t := TabChunk();
    assert t[0] == '\t';
    NoColonNoUrl(t);
    assert Keep(t + "") by {
      assert t + "" == t;
    }
    TwoParagraphsThenHeading("", t, "", "");
  }

  /** A tab followed by 80 letters. */
  function TabChunk(): string {
    ['\t'] + seq(80, _ => 'a')
  }

  /** A first `p` followed by a `p` holding `TabChunk()`, an empty `p` and an `h2`. */
  function TabPage(): Page {
    Page([Element("p", [], "", "", [Node(Some("p"), TabChunk()), Node(Some("p"), ""), Node(Some("h2"), "")])])
  }

  /** Regrouping a concatenation, proved outside the loop of `GetPageText` so that
      the loop's own proof stays small. */
  lemma ConcatAssociative<T>(a: seq<T>, b: seq<T>, c: seq<T>)
    ensures (a + b) + c == a + (b + c)
  {
  }

  // An independent description of the chunks: the siblings split into closed
  // groups followed by an open remainder.

  /** The number of `p`/`ul` nodes in `ns`. */
  function ContentCount(ns: seq<Node>): (k: nat)
    ensures k <= |ns|
  {
    if |ns| == 0 then 0
    else ContentCount(ns[..|ns| - 1]) + (if IsContent(ns[|ns| - 1]) then 1 else 0)
  }

  /** The concatenated text of the `p`/`ul` nodes in `ns`. */
  function ContentText(ns: seq<Node>): string {
    if |ns| == 0 then ""
    else if IsContent(ns[|ns| - 1]) then ContentText(ns[..|ns| - 1]) + ns[|ns| - 1].text
    else ContentText(ns[..|ns| - 1])
  }

  /** No heading and at most one `p`/`ul`: a run of siblings that closes nothing. */
  predicate Open(ns: seq<Node>) {
    && (forall i :: 0 <= i < |ns| ==> !IsHeading(ns[i]))
    && ContentCount(ns) <= 1
  }

  /** An open run ended by a heading or by its second `p`/`ul`. */
  predicate Closed(g: seq<Node>) {
    && |g| > 0
    && Open(g[..|g| - 1])
    && (IsHeading(g[|g| - 1]) || ContentCount(g) == 2)
  }

  function Flatten(groups: seq<seq<Node>>): seq<Node> {
    if |groups| == 0 then [] else groups[0] + Flatten(groups[1..])
  }

  /** `siblings` is the concatenation of the closed `groups` followed by the open `rest`. */
  predicate IsGrouping(siblings: seq<Node>, groups: seq<seq<Node>>, rest: seq<Node>) {
    && Flatten(groups) + rest == siblings
    && (forall i :: 0 <= i < |groups| ==> Closed(groups[i]))
    && Open(rest)
  }

  /** The texts of the groups that `Keep` accepts, in order. */
  function Chunks(groups: seq<seq<Node>>): seq<string> {
    if |groups| == 0 then []
    else
      var text := ContentText(groups[0]);
      (if Keep(text) then [text] else []) + Chunks(groups[1..])
  }

  datatype Grouping = Grouping(groups: seq<seq<Node>>, rest: seq<Node>)

  /** The grouping the walk builds: `pending` is the run since the last close. */
  function PartitionFrom(pending: seq<Node>, siblings: seq<Node>): Grouping
    decreases |siblings|
  {
    if |siblings| == 0 then Grouping([], pending)
    else
      var p := pending + [siblings[0]];
      if IsHeading(siblings[0]) || ContentCount(p) == 2 then
        var g := PartitionFrom([], siblings[1..]);
        Grouping([p] + g.groups, g.rest)
      else
        PartitionFrom(p, siblings[1..])
  }

  /** A grouping of `pending + siblings` exists whenever `pending` is open. */
  lemma {:induction false} PartitionIsGrouping(pending: seq<Node>, siblings: seq<Node>)
    requires Open(pending)
    ensures var g := PartitionFrom(pending, siblings);
            IsGrouping(pending + siblings, g.groups, g.rest)
    decreases |siblings|
  {
    if |siblings| == 0 {
      assert pending + siblings == pending;
      assert Flatten([]) == [];
    } else {
      var p := pending + [siblings[0]];
      assert pending + siblings == p + siblings[1..];
      if IsHeading(siblings[0]) || ContentCount(p) == 2 {
        PartitionIsGrouping([], siblings[1..]);
        var g := PartitionFrom([], siblings[1..]);
        assert [] + siblings[1..] == siblings[1..];
        CloseGroup(pending, siblings[0]);
        GroupingCons(p, siblings[1..], g.groups, g.rest);
      } else {
        ExtendOpen(pending, siblings[0]);
        PartitionIsGrouping(p, siblings[1..]);
      }
    }
  }

  lemma {:induction false} AppendNode(pending: seq<Node>, n: Node)
    ensures ContentCount(pending + [n]) == ContentCount(pending) + (if IsContent(n) then 1 else 0)
    ensures ContentText(pending + [n]) == if IsContent(n) then ContentText(pending) + n.text else ContentText(pending)
  {
    assert (pending + [n])[..|pending|] == pending;
  }

  lemma {:induction false} CloseGroup(pending: seq<Node>, n: Node)
    requires Open(pending)
    requires IsHeading(n) || ContentCount(pending + [n]) == 2
    ensures Closed(pending + [n])
  {
    assert (pending + [n])[..|pending|] == pending;
  }

  lemma {:induction false} ExtendOpen(pending: seq<Node>, n: Node)
    requires Open(pending)
    requires !IsHeading(n) && ContentCount(pending + [n]) != 2
    ensures Open(pending + [n])
  {
    AppendNode(pending, n);
    var p := pending + [n];
    assert forall i :: 0 <= i < |pending| ==> p[i] == pending[i];
  }

  lemma {:induction false} GroupingCons(g: seq<Node>, siblings: seq<Node>, groups: seq<seq<Node>>, rest: seq<Node>)
    requires Closed(g) && IsGrouping(siblings, groups, rest)
    ensures IsGrouping(g + siblings, [g] + groups, rest)
  {
    var gs := [g] + groups;
    assert gs[1..] == groups;
    assert Flatten(gs) + rest == g + (Flatten(groups) + rest);
    assert forall i :: 1 <= i < |gs| ==> gs[i] == groups[i - 1];
  }

  /** One step of the walk, with the buffer and counter given by the pending run. */
  lemma {:induction false} WalkStep(pending: seq<Node>, siblings: seq<Node>)
    requires |siblings| > 0
    ensures var p := pending + [siblings[0]];
            Walk(siblings, ContentText(pending), 1 + ContentCount(pending))
            == if IsHeading(siblings[0]) || ContentCount(p) == 2
               then (if Keep(ContentText(p)) then [ContentText(p)] else []) + Walk(siblings[1..], "", 1)
               else Walk(siblings[1..], ContentText(p), 1 + ContentCount(p))
  {
    AppendNode(pending, siblings[0]);
  }

  lemma {:induction false} ChunksCons(g: seq<Node>, groups: seq<seq<Node>>)
    ensures Chunks([g] + groups)
            == (if Keep(ContentText(g)) then [ContentText(g)] else []) + Chunks(groups)
  {
    assert ([g] + groups)[1..] == groups;
  }

  /** From the buffer and counter of a pending run, the code's walk yields the chunks
      of the grouping. */
  lemma {:induction false} WalkFollowsPartition(pending: seq<Node>, siblings: seq<Node>)
    ensures Walk(siblings, ContentText(pending), 1 + ContentCount(pending))
            == Chunks(PartitionFrom(pending, siblings).groups)
    decreases |siblings|
  {
    if |siblings| > 0 {
      var p := pending + [siblings[0]];
      WalkStep(pending, siblings);
      if IsHeading(siblings[0]) || ContentCount(p) == 2 {
        assert ContentText([]) == "" && ContentCount([]) == 0;
        WalkFollowsPartition([], siblings[1..]);
        var g := PartitionFrom([], siblings[1..]);
        assert PartitionFrom(pending, siblings) == Grouping([p] + g.groups, g.rest);
        ChunksCons(p, g.groups);
      } else {
        WalkFollowsPartition(p, siblings[1..]);
      }
    }
  }

  lemma {:induction false} ContentCountPrefix(ns: seq<Node>, k: nat)
    requires k <= |ns|
    ensures ContentCount(ns[..k]) <= ContentCount(ns)
    decreases |ns|
  {
    if k < |ns| {
      assert ns[..|ns| - 1][..k] == ns[..k];
      ContentCountPrefix(ns[..|ns| - 1], k);
    } else {
      assert ns[..k] == ns;
    }
  }

  /** Every prefix of an open run is open. */
  lemma {:induction false} OpenPrefix(ns: seq<Node>, k: nat)
    requires Open(ns) && k <= |ns|
    ensures Open(ns[..k])
  {
    ContentCountPrefix(ns, k);
  }

  /** An open run has no closed prefix, so a grouping of it has no groups. */
  lemma {:induction false} NoGroupsInOpen(siblings: seq<Node>, groups: seq<seq<Node>>, rest: seq<Node>)
    requires IsGrouping(siblings, groups, rest) && Open(siblings)
    ensures groups == []
  {
    if |groups| > 0 {
      var g := groups[0];
      assert siblings == g + (Flatten(groups[1..]) + rest);
      assert siblings[..|g|] == g;
      OpenPrefix(siblings, |g|);
      assert false;
    }
  }

  /** Two closed runs that both start `s` are the same run. */
  lemma {:induction false} ClosedPrefixesEqual(a: seq<Node>, b: seq<Node>, s: seq<Node>)
    requires Closed(a) && Closed(b) && a <= s && b <= s
    ensures a == b
  {
    if |a| < |b| {
      assert a == b[..|b| - 1][..|a|];
      OpenPrefix(b[..|b| - 1], |a|);
      assert false;
    } else if |b| < |a| {
      assert b == a[..|a| - 1][..|b|];
      OpenPrefix(a[..|a| - 1], |b|);
      assert false;
    }
  }

  /** There is only one grouping of a sibling sequence. */
  lemma {:induction false} GroupingUnique(siblings: seq<Node>, g1: seq<seq<Node>>, r1: seq<Node>,
                                          g2: seq<seq<Node>>, r2: seq<Node>)
    requires IsGrouping(siblings, g1, r1) && IsGrouping(siblings, g2, r2)
    ensures g1 == g2 && r1 == r2
    decreases |g1|
  {
    if |g1| == 0 {
      assert siblings == r1;
      NoGroupsInOpen(siblings, g2, r2);
      assert siblings == r2;
    } else if |g2| == 0 {
      assert siblings == r2;
      NoGroupsInOpen(siblings, g1, r1);
    } else {
      var a := g1[0];
      var b := g2[0];
      assert siblings == a + (Flatten(g1[1..]) + r1);
      assert siblings == b + (Flatten(g2[1..]) + r2);
      ClosedPrefixesEqual(a, b, siblings);
      var tail := siblings[|a|..];
      assert tail == Flatten(g1[1..]) + r1;
      assert tail == Flatten(g2[1..]) + r2;
      GroupingUnique(tail, g1[1..], r1, g2[1..], r2);
      assert g1 == [a] + g1[1..];
      assert g2 == [b] + g2[1..];
    }
  }

  /** What the code computes, described without its counter: split the siblings into
      the groups closed by a heading or by a second `p`/`ul`, drop the open remainder,
      and keep the group texts longer than 80 characters without `https://`. */
  lemma {:induction false} WalkIsChunksOfGrouping(siblings: seq<Node>, groups: seq<seq<Node>>, rest: seq<Node>)
    requires IsGrouping(siblings, groups, rest)
    ensures Walk(siblings, "", 1) == Chunks(groups)
  {
    var g := PartitionFrom([], siblings);
    assert ContentText([]) == "" && ContentCount([]) == 0;
    assert [] + siblings == siblings;
    PartitionIsGrouping([], siblings);
    WalkFollowsPartition([], siblings);
    GroupingUnique(siblings, groups, rest, g.groups, g.rest);
  }

  /** A closed group holds at most two `p`/`ul` siblings, and no heading before its end. */
  lemma {:induction false} ClosedAtMostTwo(g: seq<Node>)
    requires Closed(g)
    ensures ContentCount(g) <= 2
    ensures forall i :: 0 <= i < |g| - 1 ==> !IsHeading(g[i])
  {
    var init := g[..|g| - 1];
    assert ContentCount(g) == ContentCount(init) + (if IsContent(g[|g| - 1]) then 1 else 0);
    assert forall i :: 0 <= i < |g| - 1 ==> g[i] == init[i];
  }

  lemma {:induction false} ContentCountAppend(a: seq<Node>, b: seq<Node>)
    ensures ContentCount(a + b) == ContentCount(a) + ContentCount(b)
    decreases |b|
  {
    if |b| > 0 {
      assert (a + b)[..|a + b| - 1] == a + b[..|b| - 1];
      ContentCountAppend(a, b[..|b| - 1]);
    } else {
      assert a + b == a;
    }
  }

  lemma {:induction false} NoContentNoText(ns: seq<Node>)
    requires ContentCount(ns) == 0
    ensures ContentText(ns) == ""
  {
    if |ns| > 0 {
      NoContentNoText(ns[..|ns| - 1]);
    }
  }

  /** Every kept chunk uses up at least one `p`/`ul` of its own. */
  lemma {:induction false} ChunksBound(groups: seq<seq<Node>>)
    ensures |Chunks(groups)| <= ContentCount(Flatten(groups))
  {
    if |groups| > 0 {
      ChunksBound(groups[1..]);
      ContentCountAppend(groups[0], Flatten(groups[1..]));
      if ContentCount(groups[0]) == 0 {
        NoContentNoText(groups[0]);
      }
    }
  }

  /** There are no more chunks than `p`/`ul` siblings, hence no more than siblings. */
  lemma {:induction false} ChunkCountBound(siblings: seq<Node>)
    ensures |Walk(siblings, "", 1)| <= ContentCount(siblings)
  {
    var g := PartitionFrom([], siblings);
    assert ContentText([]) == "" && ContentCount([]) == 0;
    assert Flatten(g.groups) + g.rest == siblings by {
      assert [] + siblings == siblings;
      PartitionIsGrouping([], siblings);
    }
    WalkFollowsPartition([], siblings);
    ChunksBound(g.groups);
    ContentCountAppend(Flatten(g.groups), g.rest);
  }

  /** A page whose only element is a `p` followed by two `p` siblings and an `h2`:
      the first `p`'s own text `t` is left out, the two siblings close one chunk at
      the second of them, and the heading closes an empty one. */
  lemma TwoParagraphsThenHeading(t: string, a: string, b: string, h: string)
    ensures PageText(Page([Element("p", [], t, "", [Node(Some("p"), a), Node(Some("p"), b), Node(Some("h2"), h)])]))
            == if Keep(a + b) then [a + b] else []
  {
    var es := [Element("p", [], t, "", [Node(Some("p"), a), Node(Some("p"), b), Node(Some("h2"), h)])];
    assert FirstIndex(es, IsParagraphElement) == Some(0);
    WalkTwoParagraphsThenHeading(a, b, h);
  }

  /** The walk over two `p` siblings and an `h2`. */
  lemma {:induction false} WalkTwoParagraphsThenHeading(a: string, b: string, h: string)
    ensures Walk([Node(Some("p"), a), Node(Some("p"), b), Node(Some("h2"), h)], "", 1)
            == if Keep(a + b) then [a + b] else []
  {
    var s := [Node(Some("p"), a), Node(Some("p"), b), Node(Some("h2"), h)];
    assert s[1..] == [Node(Some("p"), b), Node(Some("h2"), h)];
    assert s[1..][1..] == [Node(Some("h2"), h)];
    assert !Keep("");
    assert Walk(s[1..][1..], "", 1) == [];
    assert "" + a == a;
    assert Walk(s[1..], a, 2) == if Keep(a + b) then [a + b] else [];
  }
}
