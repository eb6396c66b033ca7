/**
  `CrossrefProvider`: the request URL for a DOI, the outcome of one request,
  and `transformData`, which maps a Crossref `message` object to a flat
  citation array (`extractPageData` splits the page field).
*/
module Crossref {
  import opened Wrappers
  import opened PhpStrings
  import opened PhpValues
  import opened Provider
  import Citation

  /** The base URL given to the parent constructor; it has no trailing '/', so `rtrim` leaves it alone. */
  const BaseUrl: string := "https://api.crossref.org/works"

  /** `getProviderName()`. */
  const Name: string := "Crossref"

  /** `$this->baseUrl . '/' . urlencode($doi)`. */
  function RequestUrl(doi: string): string {
    BaseUrl + "/" + UrlEncode(doi)
  }

  /** One author entry: `family` and `given` read with `?? ''`. */
  function AuthorEntry(author: Json): Json {
    AuthorArray(Or(Field(author, "family"), JStr("")), Or(Field(author, "given"), JStr("")))
  }

  /** The author entries the `foreach` appends, one per input author, in order. */
  function MapAuthors(authors: seq<Json>): seq<Json> {
    if authors == [] then []
    else MapAuthors(authors[..|authors| - 1]) + [AuthorEntry(authors[|authors| - 1])]
  }

  /** The values `foreach ($rawData['author'] ?? [] as $author)` visits. */
  function AuthorList(raw: Json): seq<Json> {
    Values(Or(Field(raw, "author"), JList([])))
  }

  /** `$rawData['published-print']['date-parts'][0] ?? $rawData['published-online']['date-parts'][0] ?? []`. */
  function PublishedDate(raw: Json): Json {
    Or(At(Field(Field(raw, "published-print"), "date-parts"), 0),
       Or(At(Field(Field(raw, "published-online"), "date-parts"), 0), JList([])))
  }

  /** `extractPageData($pageString)`: `[]` for an empty page, else the first two pieces between '-'. */
  function ExtractPageData(page: string): Json {
    if IsEmptyString(page) then JList([])
    else
      var pages := Explode('-', page);
      JObj([("first", JStr(pages[0])), ("last", if |pages| > 1 then JStr(pages[1]) else JNull)])
  }

  /** The page string handed to `extractPageData`: `$rawData['page'] ?? ''`. */
  function PageString(raw: Json): string {
    AsString(Or(Field(raw, "page"), JStr("")))
  }

  /** The keys of the array `transformData` returns, in order. */
  const TransformKeys: seq<string> := [
    "title", "authors", "source", "year", "month", "day",
    "volume", "issue", "first_page", "last_page", "doi"
  ]

  /** The array `transformData` returns, stated as one expression. */
  function Transform(raw: Json): (r: Json)
    ensures r.JObj? && |r.entries| == |TransformKeys|
    ensures forall i :: 0 <= i < |TransformKeys| ==> r.entries[i].0 == TransformKeys[i]
  {
    var date := PublishedDate(raw);
    var pageData := ExtractPageData(PageString(raw));
    JObj([
      ("title", At(Field(raw, "title"), 0)),
      ("authors", JList(MapAuthors(AuthorList(raw)))),
      ("source", At(Field(raw, "container-title"), 0)),
      ("year", At(date, 0)),
      ("month", At(date, 1)),
      ("day", At(date, 2)),
      ("volume", Field(raw, "volume")),
      ("issue", Field(raw, "issue")),
      ("first_page", Field(pageData, "first")),
      ("last_page", Field(pageData, "last")),
      ("doi", Field(raw, "DOI"))
    ])
  }

  /** `transformData`: the author loop appends one entry per author, then the array is assembled. */
  method TransformData(raw: Json) returns (r: Json)
    ensures r == Transform(raw)
  {
    var items := AuthorList(raw);
    var authors: seq<Json> := [];
    for i := 0 to |items|
      invariant authors == MapAuthors(items[..i])
    {
      assert items[..i + 1][..i] == items[..i];
      authors := authors + [AuthorEntry(items[i])];
    }
    assert items[..|items|] == items;
    var date := PublishedDate(raw);
    var pageData := ExtractPageData(PageString(raw));
    r := JObj([
      ("title", At(Field(raw, "title"), 0)),
      ("authors", JList(authors)),
      ("source", At(Field(raw, "container-title"), 0)),
      ("year", At(date, 0)),
      ("month", At(date, 1)),
      ("day", At(date, 2)),
      ("volume", Field(raw, "volume")),
      ("issue", Field(raw, "issue")),
      ("first_page", Field(pageData, "first")),
      ("last_page", Field(pageData, "last")),
      ("doi", Field(raw, "DOI"))
    ]);
  }

  /**
    A response for which `getCitationData` raises a TypeError, which it does
    not catch: a decoded body that is neither null nor an array, or a truthy
    `message` that is not an array.
  */
  predicate IllTyped(response: Response) {
    response.Decoded? &&
      ((!response.body.JNull? && !IsArray(response.body))
       || (Truthy(Field(response.body, "message")) && !IsArray(Field(response.body, "message"))))
  }

  /** A response whose `message` is a non-empty array, which `transformData` turns into the citation. */
  predicate CarriesCitation(response: Response) {
    response.Decoded? && IsArray(Field(response.body, "message")) && Truthy(Field(response.body, "message"))
  }

  /** What `getCitationData` does with a given response to its request. */
  function ResponseOutcome(response: Response): Outcome {
    match response
    case RequestFailed(_) => Null
    case Decoded(body) =>
      if !body.JNull? && !IsArray(body) then OtherError(ReturnTypeError)
      else
        var message := Field(body, "message");
        if !Truthy(message) then Null
        else if !IsArray(message) then OtherError(ArgumentTypeError)
        else Data(Transform(message))
  }

  /**
    `getCitationData($doi)`: one request to the URL for the DOI; a
    ProviderException or a response without a truthy `message` gives null,
    a value of the wrong type raises a TypeError.
  */
  method GetCitationData(doi: string, fetch: string -> Response) returns (r: Outcome)
    ensures r == ResponseOutcome(fetch(RequestUrl(doi)))
  {
    var url := RequestUrl(doi);
    var response := fetch(url);
    if response.RequestFailed? {
      return Null;
    }
    if !response.body.JNull? && !IsArray(response.body) {
      return OtherError(ReturnTypeError);
    }
    var message := Field(response.body, "message");
    if !Truthy(message) {
      return Null;
    }
    if !IsArray(message) {
      return OtherError(ArgumentTypeError);
    }
    var data := TransformData(message);
    return Data(data);
  }

  // ---------------------------------------------------------------- properties

  /**
    Every response has one of three outcomes: the citation of a non-empty array
    `message`, a TypeError for a value of the wrong type, or null; a failed
    request's ProviderException never leaves the provider.
  */
  lemma OutcomeCases(response: Response)
    ensures var o := ResponseOutcome(response);
      && !o.ProviderError?
      && (o.Data? <==> CarriesCitation(response))
      && (o.Data? ==> o.citation == Transform(Field(response.body, "message")))
      && (o.OtherError? <==> IllTyped(response))
      && (o.Null? <==> !CarriesCitation(response) && !IllTyped(response))
      && (response.RequestFailed? ==> o.Null?)
  {
  }

  /**
    The URL is the base URL, a '/', and the encoded DOI; the DOI's own '/' is
    encoded, so the encoded part has no '/' and decodes back to the DOI's bytes.
  */
  lemma RequestUrlEncodesDoi(doi: string)
    ensures var url := RequestUrl(doi);
      && |url| > |BaseUrl| && url[..|BaseUrl| + 1] == BaseUrl + "/"
      && '/' !in url[|BaseUrl| + 1..]
      && UrlDecode(url[|BaseUrl| + 1..]) == Utf8Bytes(doi)
  {
    var url := RequestUrl(doi);
    assert url[|BaseUrl| + 1..] == UrlEncode(doi);
    assert !IsUrlEncodedChar('/');
    UrlDecodeEncode(doi);
  }

  /** One author entry per input author, in the same order. */
  lemma {:induction false} MapAuthorsPointwise(authors: seq<Json>)
    ensures |MapAuthors(authors)| == |authors|
    ensures forall i :: 0 <= i < |authors| ==> MapAuthors(authors)[i] == AuthorEntry(authors[i])
    decreases |authors|
  {
    if authors != [] {
      MapAuthorsPointwise(authors[..|authors| - 1]);
    }
  }

  /** A missing or null `family` or `given` becomes the empty string; any other value is kept. */
  lemma AuthorEntryDefaults(author: Json)
    ensures Field(AuthorEntry(author), "family") == if Field(author, "family").JNull? then JStr("") else Field(author, "family")
    ensures Field(AuthorEntry(author), "given") == if Field(author, "given").JNull? then JStr("") else Field(author, "given")
    ensures !Field(AuthorEntry(author), "family").JNull? && !Field(AuthorEntry(author), "given").JNull?
  {
  }

  /** The keys of the result are the listed eleven, none of them twice. */
  lemma TransformKeysDistinct(raw: Json)
    ensures KeysDistinct(Transform(raw).entries)
  {
    assert forall i, j :: 0 <= i < j < |TransformKeys| ==> TransformKeys[i] != TransformKeys[j];
  }

  /** The entry of `Transform(raw)` under its j-th key. */
  lemma TransformLookup(raw: Json, j: nat)
    requires j < |TransformKeys|
    ensures Field(Transform(raw), TransformKeys[j]) == Transform(raw).entries[j].1
  {
    TransformKeysDistinct(raw);
    LookupDistinct(Transform(raw).entries, j);
  }

  /** The result has no `page_range` key, so the record built from it has no page range. */
  lemma NoPageRange(raw: Json)
    ensures Field(Transform(raw), "page_range") == JNull
    ensures Citation.FromArray(Transform(raw)).pageRange == None
  {
    assert "page_range" !in TransformKeys;
    LookupMissing(Transform(raw).entries, "page_range");
  }

  /** `authors` lists one entry per element of `author`, in order. */
  lemma TransformAuthors(raw: Json)
    ensures var a := Field(Transform(raw), "authors");
      && a.JList? && |a.items| == |AuthorList(raw)|
      && forall i :: 0 <= i < |a.items| ==> a.items[i] == AuthorEntry(AuthorList(raw)[i])
  {
    TransformLookup(raw, 1);
    MapAuthorsPointwise(AuthorList(raw));
  }

  /**
    The print date is chosen whenever its first date-parts entry is set and not
    null, even when it is an empty list; the online date only otherwise; and
    the empty list when neither is set.
  */
  lemma PrintDateFirst(raw: Json)
    ensures var printed := At(Field(Field(raw, "published-print"), "date-parts"), 0);
      var online := At(Field(Field(raw, "published-online"), "date-parts"), 0);
      && (!printed.JNull? ==> PublishedDate(raw) == printed)
      && (printed.JNull? && !online.JNull? ==> PublishedDate(raw) == online)
      && (printed.JNull? && online.JNull? ==> PublishedDate(raw) == JList([]))
  {
  }

  /** Year, month and day are elements 0, 1 and 2 of the date-parts list, or null when it is shorter. */
  lemma TransformDate(raw: Json, parts: seq<Json>)
    requires PublishedDate(raw) == JList(parts)
    ensures Field(Transform(raw), "year") == if |parts| > 0 then parts[0] else JNull
    ensures Field(Transform(raw), "month") == if |parts| > 1 then parts[1] else JNull
    ensures Field(Transform(raw), "day") == if |parts| > 2 then parts[2] else JNull
  {
    TransformLookup(raw, 3);
    TransformLookup(raw, 4);
    TransformLookup(raw, 5);
  }

  /** `title` and `source` are element 0 of the `title` and `container-title` lists, or null. */
  lemma TransformTitleAndSource(raw: Json, titles: seq<Json>, containers: seq<Json>)
    requires Field(raw, "title") == JList(titles) && Field(raw, "container-title") == JList(containers)
    ensures Field(Transform(raw), "title") == if |titles| > 0 then titles[0] else JNull
    ensures Field(Transform(raw), "source") == if |containers| > 0 then containers[0] else JNull
  {
    TransformLookup(raw, 0);
    TransformLookup(raw, 2);
  }

  lemma PageDataFields(first: Json, last: Json)
    ensures Field(JObj([("first", first), ("last", last)]), "first") == first
    ensures Field(JObj([("first", first), ("last", last)]), "last") == last
  {
    var e := [("first", first), ("last", last)];
    assert e[0].0 != "last";
    EntryValueAt(e, "last", 1);
  }

  /** "a-b" gives first a and, when b has no further '-', last b; a third segment is dropped. */
  lemma PageSplit(a: string, b: string)
    requires '-' !in a
    ensures Field(ExtractPageData(a + "-" + b), "first") == JStr(a)
    ensures Field(ExtractPageData(a + "-" + b), "last") == JStr(Explode('-', b)[0])
  {
    var page := a + "-" + b;
    assert page != "0" by { assert page[|a|] == '-'; }
    ExplodeAtDelimiter('-', a, b);
    var pages := Explode('-', page);
    assert pages == [a] + Explode('-', b);
    assert |pages| > 1 && pages[0] == a && pages[1] == Explode('-', b)[0];
    PageDataFields(JStr(a), JStr(pages[1]));
  }

  /** A third segment is ignored: "a-b-c" gives first a and last b. */
  lemma PageThirdSegmentIgnored(a: string, b: string, c: string)
    requires '-' !in a && '-' !in b
    ensures Field(ExtractPageData(a + "-" + b + "-" + c), "first") == JStr(a)
    ensures Field(ExtractPageData(a + "-" + b + "-" + c), "last") == JStr(b)
  {
    assert a + "-" + b + "-" + c == a + "-" + (b + "-" + c);
    PageSplit(a, b + "-" + c);
    ExplodeAtDelimiter('-', b, c);
  }

  /** A page without '-' gives it as first and null as last. */
  lemma PageSingleSegment(p: string)
    requires '-' !in p && !IsEmptyString(p)
    ensures Field(ExtractPageData(p), "first") == JStr(p)
    ensures Field(ExtractPageData(p), "last") == JNull
  {
    ExplodeWithoutDelimiter('-', p);
    PageDataFields(JStr(p), JNull);
  }

  /** An empty page ("" or "0") gives null for both. */
  lemma PageEmpty(p: string)
    requires IsEmptyString(p)
    ensures Field(ExtractPageData(p), "first") == JNull
    ensures Field(ExtractPageData(p), "last") == JNull
  {
  }

  /** End to end: a `page` of "a-b" with no other '-' gives `first_page` a and `last_page` b. */
  lemma TransformPages(raw: Json, a: string, b: string)
    requires Field(raw, "page") == JStr(a + "-" + b) && '-' !in a && '-' !in b
    ensures Field(Transform(raw), "first_page") == JStr(a)
    ensures Field(Transform(raw), "last_page") == JStr(b)
  {
    TransformLookup(raw, 8);
    TransformLookup(raw, 9);
    PageSplit(a, b);
    ExplodeWithoutDelimiter('-', b);
  }
}
