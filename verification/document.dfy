/** The parsed page as the scraper queries it, and the metadata read from it:
    `get_page_title` and `get_page_publishing_date` in scraper.py. */
module Document {
  import opened Results
  import opened Decimal

  /** One of the siblings that follow an element: a tag (`name` is its tag name) or a
      bare string or comment (`name` is `None`), with its text content. */
  datatype Node = Node(name: Option<string>, text: string)

  /** An element of the parsed tree: its tag, the words of its `class` attribute
      (empty when it has none), its text content, its markup as `str(element)`
      renders it, and the siblings that follow it, in document order. */
  datatype Element = Element(
    tag: string,
    classes: seq<string>,
    text: string,
    markup: string,
    nextSiblings: seq<Node>)

  /** A parsed page: every element, in document order. */
  datatype Page = Page(elements: seq<Element>)

  /** The calendar date `strptime` returns; its time of day is midnight. */
  datatype Date = Date(year: nat, month: nat, day: nat)

  predicate ValidDate(d: Date) {
    1 <= d.year <= 9999 && 1 <= d.month <= 12 && 1 <= d.day <= 31
  }

  type CalendarDate = d: Date | ValidDate(d) witness Date(1, 1, 1)

  /** What the date pattern and `strptime` make of a div's text: no match of the
      pattern, a match `strptime` rejects, or a date. */
  datatype DateScan = NoMatch | Unparsable | Parsed(date: CalendarDate)

  /** The index of the first element satisfying `p`; `find` and the first hit of `find_all`. */
  function FirstIndex(es: seq<Element>, p: Element -> bool): (r: Option<nat>)
    ensures r.Some? ==> r.value < |es| && p(es[r.value])
    ensures r.Some? ==> forall j :: 0 <= j < r.value ==> !p(es[j])
    ensures r.None? ==> forall j :: 0 <= j < |es| ==> !p(es[j])
  {
    if |es| == 0 then None
    else if p(es[0]) then Some(0)
    else match FirstIndex(es[1..], p)
      case None => None
      case Some(i) => Some(i + 1)
  }

  predicate IsPublicationInfo(e: Element) {
    e.tag == "div" && "publication-info" in e.classes
  }

  predicate IsTitleElement(e: Element) {
    e.tag == "h1"
  }

  /** The text of the first `h1`, or the empty string when the page has none. */
  function GetPageTitle(page: Page): (r: string)
    ensures (forall i :: 0 <= i < |page.elements| ==> page.elements[i].tag != "h1") ==> r == ""
    ensures forall i :: 0 <= i < |page.elements| && page.elements[i].tag == "h1"
                        && (forall j :: 0 <= j < i ==> page.elements[j].tag != "h1")
                        ==> r == page.elements[i].text
  {
    match FirstIndex(page.elements, IsTitleElement)
    case None => ""
    case Some(i) => page.elements[i].text
  }

  /** The first div whose classes include `publication-info` decides the date: the
      pattern finds nothing in its text (IndexError on `parsed_date[0]`), `strptime`
      rejects the match (ValueError), or the date. No such div: no date. */
  function GetPublishingDate(page: Page, scan: string -> DateScan): (r: Result<Option<CalendarDate>>)
    ensures (forall i :: 0 <= i < |page.elements| ==> !IsPublicationInfo(page.elements[i])) <==> r == Ok(None)
    ensures forall i :: 0 <= i < |page.elements| && IsPublicationInfo(page.elements[i])
                        && (forall j :: 0 <= j < i ==> !IsPublicationInfo(page.elements[j]))
                        ==> r == match scan(page.elements[i].text)
                                 case NoMatch => Raised(IndexError)
                                 case Unparsable => Raised(ValueError)
                                 case Parsed(d) => Ok(Some(d))
  {
    match FirstIndex(page.elements, IsPublicationInfo)
    case None => Ok(None)
    case Some(i) =>
      match scan(page.elements[i].text)
      case NoMatch => Raised(IndexError)
      case Unparsable => Raised(ValueError)
      case Parsed(d) => Ok(Some(d))
  }

  /** `datetime.isoformat()` of a date at midnight: `YYYY-MM-DDT00:00:00`. The
      year, month and day read back from their fixed positions. */
  function IsoFormat(d: CalendarDate): (r: string)
    ensures |r| == 19
    ensures r[4] == '-' && r[7] == '-' && r[10..] == "T00:00:00"
    ensures IsDigits(r[..4]) && IsDigits(r[5..7]) && IsDigits(r[8..10])
    ensures ParseDecimal(r[..4]) == d.year
    ensures ParseDecimal(r[5..7]) == d.month
    ensures ParseDecimal(r[8..10]) == d.day
  {
    var year := ZeroPad(d.year, 4);
    var month := ZeroPad(d.month, 2);
    var day := ZeroPad(d.day, 2);
    ParseZeroPad(d.year, 4);
    ParseZeroPad(d.month, 2);
    ParseZeroPad(d.day, 2);
    var r := year + "-" + month + "-" + day + "T00:00:00";
    assert r[..4] == year && r[5..7] == month && r[8..10] == day;
    r
  }

  /** The rendering is the only string of its shape that reads back as `d`: four,
      two and two digits, `-` between them, then `T00:00:00`. */
  lemma IsoFormatUnique(d: CalendarDate, s: string)
    requires |s| == 19 && s[4] == '-' && s[7] == '-' && s[10..] == "T00:00:00"
    requires IsDigits(s[..4]) && IsDigits(s[5..7]) && IsDigits(s[8..10])
    requires ParseDecimal(s[..4]) == d.year
    requires ParseDecimal(s[5..7]) == d.month
    requires ParseDecimal(s[8..10]) == d.day
    ensures s == IsoFormat(d)
  {
    DigitsAreZeroPad(s[..4]);
    DigitsAreZeroPad(s[5..7]);
    DigitsAreZeroPad(s[8..10]);
    assert s == s[..4] + "-" + s[5..7] + "-" + s[8..10] + s[10..];
  }
}
