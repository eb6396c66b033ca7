/**
  The citation record (`CitationData`): twelve promoted private fields set once
  by the constructor and read back by getters, and `fromArray`, which builds a
  record from a provider's flat citation array. The record is a datatype value:
  it has no mutators, as in the source.
*/
module Citation {
  import opened Wrappers
  import opened PhpStrings
  import opened PhpValues

  /** `CitationData`; each destructor is the getter of the same name. */
  datatype CitationData = CitationData(
    title: Option<string>,
    authors: seq<Json>,
    source: Option<string>,
    year: Option<int>,
    month: Option<int>,
    day: Option<int>,
    volume: Option<string>,
    issue: Option<string>,
    firstPage: Option<string>,
    lastPage: Option<string>,
    pageRange: Option<string>,
    doi: Option<string>)

  /** The keys of a citation array that `fromArray` reads, in the order it reads them. */
  const ArrayKeys: seq<string> := [
    "title", "authors", "source", "year", "month", "day",
    "volume", "issue", "first_page", "last_page", "page_range", "doi"
  ]

  /** `new CitationData($title, $authors, $source)`: every later parameter takes its default, null. */
  function WithDefaults(title: Option<string>, authors: seq<Json>, source: Option<string>): (c: CitationData)
    ensures c.title == title && c.authors == authors && c.source == source
    ensures c.year.None? && c.month.None? && c.day.None?
    ensures c.volume.None? && c.issue.None?
    ensures c.firstPage.None? && c.lastPage.None? && c.pageRange.None? && c.doi.None?
  {
    CitationData(title, authors, source, None, None, None, None, None, None, None, None, None)
  }

  /**
    `CitationData::fromArray`: each field is read with `?? null` from its key;
    `first_page`, `last_page` and `page_range` feed `firstPage`, `lastPage`
    and `pageRange`, every other field has its own name as key, and a missing
    `authors` key gives the empty list. A field is null exactly when its key is
    missing, null, or holds a value of another type.
  */
  function FromArray(data: Json): (c: CitationData)
    ensures c.title.Some? <==> Field(data, "title").JStr?
    ensures c.source.Some? <==> Field(data, "source").JStr?
    ensures c.year.Some? <==> Field(data, "year").JInt?
    ensures c.month.Some? <==> Field(data, "month").JInt?
    ensures c.day.Some? <==> Field(data, "day").JInt?
    ensures c.volume.Some? <==> Field(data, "volume").JStr?
    ensures c.issue.Some? <==> Field(data, "issue").JStr?
    ensures c.firstPage.Some? <==> Field(data, "first_page").JStr?
    ensures c.lastPage.Some? <==> Field(data, "last_page").JStr?
    ensures c.pageRange.Some? <==> Field(data, "page_range").JStr?
    ensures c.doi.Some? <==> Field(data, "doi").JStr?
    ensures Field(data, "authors").JNull? ==> c.authors == []
  {
    CitationData(
      title := AsNullableString(Field(data, "title")),
      authors := Values(Field(data, "authors")),
      source := AsNullableString(Field(data, "source")),
      year := AsNullableInt(Field(data, "year")),
      month := AsNullableInt(Field(data, "month")),
      day := AsNullableInt(Field(data, "day")),
      volume := AsNullableString(Field(data, "volume")),
      issue := AsNullableString(Field(data, "issue")),
      firstPage := AsNullableString(Field(data, "first_page")),
      lastPage := AsNullableString(Field(data, "last_page")),
      pageRange := AsNullableString(Field(data, "page_range")),
      doi := AsNullableString(Field(data, "doi")))
  }

  /** The citation array a record is read from, with the keys `fromArray` expects. */
  function ToArray(c: CitationData): (r: Json)
    ensures r.JObj? && |r.entries| == |ArrayKeys|
    ensures forall i :: 0 <= i < |ArrayKeys| ==> r.entries[i].0 == ArrayKeys[i]
  {
    JObj([
      ("title", FromNullableString(c.title)),
      ("authors", JList(c.authors)),
      ("source", FromNullableString(c.source)),
      ("year", FromNullableInt(c.year)),
      ("month", FromNullableInt(c.month)),
      ("day", FromNullableInt(c.day)),
      ("volume", FromNullableString(c.volume)),
      ("issue", FromNullableString(c.issue)),
      ("first_page", FromNullableString(c.firstPage)),
      ("last_page", FromNullableString(c.lastPage)),
      ("page_range", FromNullableString(c.pageRange)),
      ("doi", FromNullableString(c.doi))
    ])
  }

  /** No key is listed twice. */
  lemma ArrayKeysDistinct()
    ensures forall i, j :: 0 <= i < j < |ArrayKeys| ==> ArrayKeys[i] != ArrayKeys[j]
  {
  }

  /** In a record's citation array each listed key finds its own entry. */
  lemma ToArrayLookup(c: CitationData, j: nat)
    requires j < |ArrayKeys|
    ensures Field(ToArray(c), ArrayKeys[j]) == ToArray(c).entries[j].1
  {
    ArrayKeysDistinct();
    EntryValueAt(ToArray(c).entries, ArrayKeys[j], j);
  }

  lemma ToArrayHead(c: CitationData)
    ensures Field(ToArray(c), "title") == FromNullableString(c.title)
    ensures Field(ToArray(c), "authors") == JList(c.authors)
    ensures Field(ToArray(c), "source") == FromNullableString(c.source)
    ensures Field(ToArray(c), "year") == FromNullableInt(c.year)
  {
    ToArrayLookup(c, 0);
    ToArrayLookup(c, 1);
    ToArrayLookup(c, 2);
    ToArrayLookup(c, 3);
  }

  lemma ToArrayMiddle(c: CitationData)
    ensures Field(ToArray(c), "month") == FromNullableInt(c.month)
    ensures Field(ToArray(c), "day") == FromNullableInt(c.day)
    ensures Field(ToArray(c), "volume") == FromNullableString(c.volume)
    ensures Field(ToArray(c), "issue") == FromNullableString(c.issue)
  {
    ToArrayLookup(c, 4);
    ToArrayLookup(c, 5);
    ToArrayLookup(c, 6);
    ToArrayLookup(c, 7);
  }

  lemma ToArrayTail(c: CitationData)
    ensures Field(ToArray(c), "first_page") == FromNullableString(c.firstPage)
    ensures Field(ToArray(c), "last_page") == FromNullableString(c.lastPage)
    ensures Field(ToArray(c), "page_range") == FromNullableString(c.pageRange)
    ensures Field(ToArray(c), "doi") == FromNullableString(c.doi)
  {
    ToArrayLookup(c, 8);
    ToArrayLookup(c, 9);
    ToArrayLookup(c, 10);
    ToArrayLookup(c, 11);
  }

  /** Every record is `fromArray` of its own citation array: the key renaming loses nothing. */
  lemma FromArrayToArray(c: CitationData)
    ensures FromArray(ToArray(c)) == c
  {
    ToArrayHead(c);
    ToArrayMiddle(c);
    ToArrayTail(c);
    NullableRoundTrip(c.title, c.year);
    NullableRoundTrip(c.source, c.month);
    NullableRoundTrip(c.volume, c.day);
    NullableRoundTrip(c.issue, None);
    NullableRoundTrip(c.firstPage, None);
    NullableRoundTrip(c.lastPage, None);
    NullableRoundTrip(c.pageRange, None);
    NullableRoundTrip(c.doi, None);
  }

  /** An array without any of the keys gives the record whose fields are all null and whose author list is empty. */
  lemma FromArrayOfEmpty()
    ensures FromArray(JObj([])) == WithDefaults(None, [], None)
  {
  }

  /** Each getter returns exactly what was passed to the constructor. */
  lemma GettersReturnArguments(
    title: Option<string>, authors: seq<Json>, source: Option<string>,
    year: Option<int>, month: Option<int>, day: Option<int>,
    volume: Option<string>, issue: Option<string>,
    firstPage: Option<string>, lastPage: Option<string>, pageRange: Option<string>,
    doi: Option<string>)
    ensures var c := CitationData(title, authors, source, year, month, day, volume, issue, firstPage, lastPage, pageRange, doi);
      && c.title == title && c.authors == authors && c.source == source
      && c.year == year && c.month == month && c.day == day
      && c.volume == volume && c.issue == issue
      && c.firstPage == firstPage && c.lastPage == lastPage && c.pageRange == pageRange
      && c.doi == doi
  {
  }

  /** Only the twelve listed keys are read: arrays that agree on them give the same record. */
  lemma OnlyArrayKeysRead(a: Json, b: Json)
    requires forall k :: k in ArrayKeys ==> Field(a, k) == Field(b, k)
    ensures FromArray(a) == FromArray(b)
  {
    var ks := ArrayKeys;
    assert Field(a, ks[0]) == Field(b, ks[0]);
    assert Field(a, ks[1]) == Field(b, ks[1]);
    assert Field(a, ks[2]) == Field(b, ks[2]);
    assert Field(a, ks[3]) == Field(b, ks[3]);
    assert Field(a, ks[4]) == Field(b, ks[4]);
    assert Field(a, ks[5]) == Field(b, ks[5]);
    assert Field(a, ks[6]) == Field(b, ks[6]);
    assert Field(a, ks[7]) == Field(b, ks[7]);
    assert Field(a, ks[8]) == Field(b, ks[8]);
    assert Field(a, ks[9]) == Field(b, ks[9]);
    assert Field(a, ks[10]) == Field(b, ks[10]);
    assert Field(a, ks[11]) == Field(b, ks[11]);
  }

  /** An entry under any other key, such as the camel-case `firstPage`, changes nothing. */
  lemma OtherKeyIgnored(k: string, v: Json, entries: seq<(string, Json)>)
    requires k !in ArrayKeys
    ensures FromArray(JObj([(k, v)] + entries)) == FromArray(JObj(entries))
  {
    var a, b := JObj([(k, v)] + entries), JObj(entries);
    forall n | n in ArrayKeys
      ensures Field(a, n) == Field(b, n)
    {
      assert ([(k, v)] + entries)[1..] == entries;
    }
    OnlyArrayKeysRead(a, b);
  }

  /** `fromArray` does not read the camel-case field names: `firstPage` is not `first_page`. */
  lemma CamelCaseKeyNotRead(p: string)
    ensures FromArray(JObj([("firstPage", JStr(p))])).firstPage == None
  {
    OtherKeyIgnored("firstPage", JStr(p), []);
    assert [("firstPage", JStr(p))] + [] == [("firstPage", JStr(p))];
    FromArrayOfEmpty();
  }
}
