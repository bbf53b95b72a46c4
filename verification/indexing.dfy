/** The database side of `visit_page` (scraper.py): the records built for a page's
    paragraphs, their ids and metadata, and the advance of `database_index`. */
module Indexing {
  import opened Results
  import opened Decimal
  import opened Document
  import opened Segmenter
  import opened Scraper

  /** The metadata stored with each paragraph of a page. */
  datatype Metadata = Metadata(url: string, title: string, publishingDate: string)

  /** One call of `collection.upsert`: documents, ids and metadata, aligned by position. */
  datatype Upsert = Upsert(documents: seq<string>, ids: seq<string>, metadatas: seq<Metadata>)

  /** The stored publishing date: the ISO rendering of the date, or the empty string
      when the page has none. */
  function DateField(date: Option<CalendarDate>): (r: string)
    ensures date.None? <==> r == ""
    ensures date.Some? ==> |r| == 19 && r == IsoFormat(date.value)
    ensures ReadDateField(r) == date
  {
    match date
    case None => ""
    case Some(d) => IsoFormat(d)
  }

  /** Reads a stored date field back: year, month and day from their fixed positions. */
  function ReadDateField(field: string): (r: Option<Date>)
    ensures r.Some? <==> |field| == 19
  {
    if |field| == 19 then
      Some(Date(ParseDecimal(field[..4]), ParseDecimal(field[5..7]), ParseDecimal(field[8..10])))
    else None
  }

  /** `ids` are the decimal renderings of `first`, `first + 1`, ... in order:
      canonical digit strings that read as those numbers. */
  predicate IdsFrom(ids: seq<string>, first: nat) {
    forall k :: 0 <= k < |ids| ==> IsCanonical(ids[k]) && ParseDecimal(ids[k]) == first + k
  }

  /** Ids meeting `IdsFrom` are exactly `str(first)`, `str(first + 1)`, ... */
  lemma IdsFromAreDecimalStrings(ids: seq<string>, first: nat)
    requires IdsFrom(ids, first)
    ensures forall k :: 0 <= k < |ids| ==> ids[k] == DecimalString(first + k)
  {
    forall k | 0 <= k < |ids|
      ensures ids[k] == DecimalString(first + k)
    {
      CanonicalIsDecimalString(ids[k]);
    }
  }

  /** `[str(i) for i in range(first, first + n)]`. */
  function IdBlock(first: nat, n: nat): (r: seq<string>)
    ensures |r| == n && IdsFrom(r, first)
    decreases n
  {
    if n == 0 then []
    else
      ParseDecimalString(first);
      DecimalStringCanonical(first);
      [DecimalString(first)] + IdBlock(first + 1, n - 1)
  }

  /** The ids of a run of upserts, in the order they were written. */
  function AllIds(us: seq<Upsert>): seq<string> {
    if |us| == 0 then [] else AllIds(us[..|us| - 1]) + us[|us| - 1].ids
  }

  /** Consecutive blocks of ids continue one another. */
  lemma IdsFromAppend(a: seq<string>, b: seq<string>, first: nat)
    requires IdsFrom(a, first) && IdsFrom(b, first + |a|)
    ensures IdsFrom(a + b, first)
  {
    forall k | 0 <= k < |a + b|
      ensures IsCanonical((a + b)[k]) && ParseDecimal((a + b)[k]) == first + k
    {
      if k >= |a| {
        assert (a + b)[k] == b[k - |a|];
      }
    }
  }

  /** Ids drawn from a run of consecutive numbers never repeat. */
  lemma IdsFromDistinct(ids: seq<string>, first: nat)
    requires IdsFrom(ids, first)
    ensures forall i, j :: 0 <= i < j < |ids| ==> ids[i] != ids[j]
  {
    forall i, j | 0 <= i < j < |ids|
      ensures ids[i] != ids[j]
    {
      assert ParseDecimal(ids[i]) == first + i;
      assert ParseDecimal(ids[j]) == first + j;
    }
  }

  /** An upsert as `visit_page` issues it: at least one paragraph, the three lists
      aligned, and every document longer than 80 characters. */
  predicate WellFormed(u: Upsert) {
    && |u.documents| > 0
    && |u.ids| == |u.documents|
    && |u.metadatas| == |u.documents|
    && (forall k :: 0 <= k < |u.documents| ==> |u.documents[k]| > 80)
  }

  /** The store block of `visit_page`: when storing is on and the page produced
      paragraphs, one upsert whose ids continue from `database_index`, which is then
      advanced past them; otherwise nothing is written and the state is unchanged. */
  function IndexPage(st: State, url: string, title: string, date: Option<CalendarDate>,
                     paragraphs: seq<string>): (r: (State, Option<Upsert>))
    ensures !(st.storeOnDatabase && |paragraphs| > 0) ==> r == (st, None)
    ensures st.storeOnDatabase && |paragraphs| > 0 ==>
              && r.1.Some?
              && r.1.value.documents == paragraphs
              && |r.1.value.ids| == |paragraphs|
              && IdsFrom(r.1.value.ids, st.databaseIndex)
              && |r.1.value.metadatas| == |paragraphs|
              && (forall k :: 0 <= k < |paragraphs| ==>
                    r.1.value.metadatas[k] == Metadata(url, title, DateField(date)))
              && r.0 == st.(databaseIndex := st.databaseIndex + |paragraphs|)
  {
    if st.storeOnDatabase && |paragraphs| > 0 then
      var meta := seq(|paragraphs|, _ => Metadata(url, title, DateField(date)));
      var ids := IdBlock(st.databaseIndex, |paragraphs|);
      (st.(databaseIndex := st.databaseIndex + |paragraphs|), Some(Upsert(paragraphs, ids, meta)))
    else (st, None)
  }
}
