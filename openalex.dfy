/**
  `OpenAlexProvider`: the request URL for a DOI, the outcome of one request,
  and `transformData`, which maps an OpenAlex work to a flat citation array
  (author names are split at spaces, `extractDate` splits the publication date).
*/
module OpenAlex {
  import opened Wrappers
  import opened PhpStrings
  import opened PhpValues
  import opened Provider
  import Citation

  /** The base URL given to the parent constructor; it has no trailing '/', so `rtrim` leaves it alone. */
  const BaseUrl: string := "https://api.openalex.org/works"

  /** `getProviderName()`. */
  const Name: string := "OpenAlex"

  /** What the URL puts between the base URL and the encoded DOI. */
  const DoiResolver: string := "/https://doi.org/"

  /** `$this->baseUrl . '/https://doi.org/' . urlencode($doi)`. */
  function RequestUrl(doi: string): string {
    BaseUrl + DoiResolver + UrlEncode(doi)
  }

  /** `$authorship['author']['display_name'] ?? ''`, as the string `explode` is given. */
  function DisplayName(authorship: Json): string {
    AsString(Or(Field(Field(authorship, "author"), "display_name"), JStr("")))
  }

  /** `array_pop(explode(' ', $displayName))`: the last space-separated piece. */
  function FamilyName(displayName: string): string {
    var parts := Explode(' ', displayName);
    parts[|parts| - 1]
  }

  /** `implode(' ', $nameParts)` after the pop: every piece but the last, rejoined with spaces. */
  function GivenName(displayName: string): string {
    var parts := Explode(' ', displayName);
    Implode(" ", parts[..|parts| - 1])
  }

  /** The author entry written for one authorship. */
  function AuthorEntry(authorship: Json): Json {
    var name := DisplayName(authorship);
    AuthorArray(JStr(FamilyName(name)), JStr(GivenName(name)))
  }

  /** The author entries the `foreach` appends, one per authorship, in order. */
  function MapAuthors(authorships: seq<Json>): seq<Json> {
    if authorships == [] then []
    else MapAuthors(authorships[..|authorships| - 1]) + [AuthorEntry(authorships[|authorships| - 1])]
  }

  /** The values `foreach ($rawData['authorships'] ?? [] as $authorship)` visits. */
  function AuthorshipList(raw: Json): seq<Json> {
    Values(Or(Field(raw, "authorships"), JList([])))
  }

  /** `$rawData['host_venue'] ?? []`. */
  function Venue(raw: Json): Json {
    Or(Field(raw, "host_venue"), JList([]))
  }

  /**
    `extractDate($dateString)`: `[]` for an empty date; otherwise the pieces
    between '-' give year, month and day through `(int)`, each null when that
    piece does not exist.
  */
  function ExtractDate(date: string): Json {
    if IsEmptyString(date) then JList([])
    else
      var parts := Explode('-', date);
      JObj([
        ("year", JInt(IntCast(parts[0]))),
        ("month", if |parts| > 1 then JInt(IntCast(parts[1])) else JNull),
        ("day", if |parts| > 2 then JInt(IntCast(parts[2])) else JNull)
      ])
  }

  /** The date string handed to `extractDate`: `$rawData['publication_date'] ?? ''`. */
  function DateString(raw: Json): string {
    AsString(Or(Field(raw, "publication_date"), JStr("")))
  }

  /** The array `transformData` returns, stated as one expression; its keys are those `fromArray` reads. */
  function Transform(raw: Json): (r: Json)
    ensures r.JObj? && |r.entries| == |Citation.ArrayKeys|
    ensures forall i :: 0 <= i < |Citation.ArrayKeys| ==> r.entries[i].0 == Citation.ArrayKeys[i]
  {
    var venue := Venue(raw);
    var date := ExtractDate(DateString(raw));
    JObj([
      ("title", Field(raw, "title")),
      ("authors", JList(MapAuthors(AuthorshipList(raw)))),
      ("source", Field(venue, "display_name")),
      ("year", Field(date, "year")),
      ("month", Field(date, "month")),
      ("day", Field(date, "day")),
      ("volume", Field(venue, "volume")),
      ("issue", Field(venue, "issue")),
      ("first_page", Field(venue, "first_page")),
      ("last_page", Field(venue, "last_page")),
      ("page_range", Field(venue, "page_range")),
      ("doi", Field(raw, "doi"))
    ])
  }

  /**
    `transformData`: for each authorship the display name is exploded at
    spaces, the last piece popped off as the family name and the rest imploded
    as the given name; then the array is assembled.
  */
  method TransformData(raw: Json) returns (r: Json)
    ensures r == Transform(raw)
  {
    var items := AuthorshipList(raw);
    var authors: seq<Json> := [];
    for i := 0 to |items|
      invariant authors == MapAuthors(items[..i])
    {
      assert items[..i + 1][..i] == items[..i];
      var displayName := DisplayName(items[i]);
      var nameParts := Explode(' ', displayName);
      var family := nameParts[|nameParts| - 1];
      nameParts := nameParts[..|nameParts| - 1];
      var given := Implode(" ", nameParts);
      authors := authors + [AuthorArray(JStr(family), JStr(given))];
    }
    assert items[..|items|] == items;
    var venue := Venue(raw);
    var date := ExtractDate(DateString(raw));
    r := JObj([
      ("title", Field(raw, "title")),
      ("authors", JList(authors)),
      ("source", Field(venue, "display_name")),
      ("year", Field(date, "year")),
      ("month", Field(date, "month")),
      ("day", Field(date, "day")),
      ("volume", Field(venue, "volume")),
      ("issue", Field(venue, "issue")),
      ("first_page", Field(venue, "first_page")),
      ("last_page", Field(venue, "last_page")),
      ("page_range", Field(venue, "page_range")),
      ("doi", Field(raw, "doi"))
    ]);
  }

  /** A response for which `makeRequest` raises a TypeError: a decoded body that is neither null nor an array. */
  predicate IllTyped(response: Response) {
    response.Decoded? && !response.body.JNull? && !IsArray(response.body)
  }

  /** A response whose body is a non-empty array, which `transformData` turns into the citation. */
  predicate CarriesCitation(response: Response) {
    response.Decoded? && IsArray(response.body) && Truthy(response.body)
  }

  /** What `getCitationData` does with a given response to its request. */
  function ResponseOutcome(response: Response): Outcome {
    match response
    case RequestFailed(_) => Null
    case Decoded(body) =>
      if !body.JNull? && !IsArray(body) then OtherError(ReturnTypeError)
      else if !Truthy(body) then Null
      else Data(Transform(body))
  }

  /**
    `getCitationData($doi)`: one request to the URL for the DOI; a
    ProviderException or a falsy response gives null, a decoded scalar raises
    a TypeError.
  */
  method GetCitationData(doi: string, fetch: string -> Response) returns (r: Outcome)
    ensures r == ResponseOutcome(fetch(RequestUrl(doi)))
  {
    var url := RequestUrl(doi);
    var response := fetch(url);
    if response.RequestFailed? {
      return Null;
    }
    if !response.body.JNull? && !IsArray(response.body) {
      return OtherError(ReturnTypeError);
    }
    if !Truthy(response.body) {
      return Null;
    }
    var data := TransformData(response.body);
    return Data(data);
  }

  // ---------------------------------------------------------------- properties

  /**
    Every response has one of three outcomes: the citation of a non-empty array
    body, a TypeError for a decoded scalar, or null; a failed request's
    ProviderException never leaves the provider.
  */
  lemma OutcomeCases(response: Response)
    ensures var o := ResponseOutcome(response);
      && !o.ProviderError?
      && (o.Data? <==> CarriesCitation(response))
      && (o.Data? ==> o.citation == Transform(response.body))
      && (o.OtherError? <==> IllTyped(response))
      && (o.Null? <==> !CarriesCitation(response) && !IllTyped(response))
      && (response.RequestFailed? ==> o.Null?)
  {
  }

  /**
    The URL is the base URL, "/https://doi.org/", and the encoded DOI; the
    encoded part has no '/' and decodes back to the DOI's bytes.
  */
  lemma RequestUrlEncodesDoi(doi: string)
    ensures var url := RequestUrl(doi);
      var n := |BaseUrl + DoiResolver|;
      && |url| >= n && url[..n] == BaseUrl + DoiResolver
      && '/' !in url[n..]
      && UrlDecode(url[n..]) == Utf8Bytes(doi)
  {
    var url := RequestUrl(doi);
    var n := |BaseUrl + DoiResolver|;
    assert url[n..] == UrlEncode(doi);
    assert !IsUrlEncodedChar('/');
    UrlDecodeEncode(doi);
  }

  /** When the display name contains a space, given name, a space and family name rebuild it. */
  lemma NameSplitRoundTrip(displayName: string)
    requires ' ' in displayName
    ensures GivenName(displayName) + " " + FamilyName(displayName) == displayName
  {
    var parts := Explode(' ', displayName);
    ExplodeSplits(' ', displayName);
    ImplodeExplode(' ', displayName);
    ImplodeSnoc(" ", parts);
  }

  /** Without a space the whole display name is the family name and the given name is empty. */
  lemma NameWithoutSpace(displayName: string)
    requires ' ' !in displayName
    ensures FamilyName(displayName) == displayName && GivenName(displayName) == ""
  {
    ExplodeWithoutDelimiter(' ', displayName);
  }

  /** The family name never contains a space. */
  lemma FamilyNameHasNoSpace(displayName: string)
    ensures ' ' !in FamilyName(displayName)
  {
  }

  /** One author entry per authorship, in the same order. */
  lemma {:induction false} MapAuthorsPointwise(authorships: seq<Json>)
    ensures |MapAuthors(authorships)| == |authorships|
    ensures forall i :: 0 <= i < |authorships| ==> MapAuthors(authorships)[i] == AuthorEntry(authorships[i])
    decreases |authorships|
  {
    if authorships != [] {
      var n := |authorships|;
      var init := authorships[..n - 1];
      MapAuthorsPointwise(init);
      assert MapAuthors(authorships) == MapAuthors(init) + [AuthorEntry(authorships[n - 1])];
      forall i | 0 <= i < n
        ensures MapAuthors(authorships)[i] == AuthorEntry(authorships[i])
      {
        if i < n - 1 {
          assert authorships[i] == init[i];
        }
      }
    }
  }

  /** The entry of `Transform(raw)` under its j-th key. */
  lemma TransformLookup(raw: Json, j: nat)
    requires j < |Citation.ArrayKeys|
    ensures Field(Transform(raw), Citation.ArrayKeys[j]) == Transform(raw).entries[j].1
  {
    Citation.ArrayKeysDistinct();
    LookupDistinct(Transform(raw).entries, j);
  }

  /** `authors` lists one entry per authorship, in order, each with the popped family and the rejoined given name. */
  lemma TransformAuthors(raw: Json)
    ensures var a := Field(Transform(raw), "authors");
      && a.JList? && |a.items| == |AuthorshipList(raw)|
      && forall i :: 0 <= i < |a.items| ==> a.items[i] == AuthorEntry(AuthorshipList(raw)[i])
  {
    TransformLookup(raw, 1);
    MapAuthorsPointwise(AuthorshipList(raw));
  }

  /** `source`, `volume`, `issue` and the three page fields are read from `host_venue`: null when it is missing. */
  lemma TransformVenue(raw: Json)
    ensures Field(Transform(raw), "source") == Field(Field(raw, "host_venue"), "display_name")
    ensures Field(Transform(raw), "volume") == Field(Field(raw, "host_venue"), "volume")
    ensures Field(Transform(raw), "issue") == Field(Field(raw, "host_venue"), "issue")
    ensures Field(Transform(raw), "first_page") == Field(Field(raw, "host_venue"), "first_page")
    ensures Field(Transform(raw), "last_page") == Field(Field(raw, "host_venue"), "last_page")
    ensures Field(Transform(raw), "page_range") == Field(Field(raw, "host_venue"), "page_range")
  {
    TransformLookup(raw, 2);
    TransformLookup(raw, 6);
    TransformLookup(raw, 7);
    TransformLookup(raw, 8);
    TransformLookup(raw, 9);
    TransformLookup(raw, 10);
  }

  /** An empty publication date ("" or "0") gives null year, month and day. */
  lemma EmptyDateGivesNull(raw: Json)
    requires IsEmptyString(DateString(raw))
    ensures Field(Transform(raw), "year") == JNull
    ensures Field(Transform(raw), "month") == JNull
    ensures Field(Transform(raw), "day") == JNull
  {
    TransformLookup(raw, 3);
    TransformLookup(raw, 4);
    TransformLookup(raw, 5);
  }

  lemma DateFields(y: Json, m: Json, d: Json)
    ensures Field(JObj([("year", y), ("month", m), ("day", d)]), "year") == y
    ensures Field(JObj([("year", y), ("month", m), ("day", d)]), "month") == m
    ensures Field(JObj([("year", y), ("month", m), ("day", d)]), "day") == d
  {
    var e := [("year", y), ("month", m), ("day", d)];
    assert e[0].0 != "month" && e[0].0 != "day" && e[1].0 != "day";
    EntryValueAt(e, "month", 1);
    EntryValueAt(e, "day", 2);
  }

  /**
    A non-empty date is split at '-': the year is always present, the month
    exactly when there is a '-', and each present part is the `(int)` of its piece.
  */
  lemma DateParts(date: string)
    requires !IsEmptyString(date)
    ensures var parts := Explode('-', date);
      && Field(ExtractDate(date), "year") == JInt(IntCast(parts[0]))
      && (Field(ExtractDate(date), "month") != JNull <==> '-' in date)
      && (|parts| > 1 ==> Field(ExtractDate(date), "month") == JInt(IntCast(parts[1])))
      && (Field(ExtractDate(date), "day") != JNull <==> |parts| > 2)
      && (|parts| > 2 ==> Field(ExtractDate(date), "day") == JInt(IntCast(parts[2])))
  {
    var parts := Explode('-', date);
    ExplodeSplits('-', date);
    DateFields(JInt(IntCast(parts[0])),
      if |parts| > 1 then JInt(IntCast(parts[1])) else JNull,
      if |parts| > 2 then JInt(IntCast(parts[2])) else JNull);
  }

  /** A date written as "Y-M-D" from non-negative PHP integers reads back as those numbers. */
  lemma DateRoundTrip(y: nat, m: nat, d: nat)
    requires y <= IntMax && m <= IntMax && d <= IntMax
    ensures var date := Decimal(y) + "-" + Decimal(m) + "-" + Decimal(d);
      && Field(ExtractDate(date), "year") == JInt(y)
      && Field(ExtractDate(date), "month") == JInt(m)
      && Field(ExtractDate(date), "day") == JInt(d)
  {
    var ys, ms, ds := Decimal(y), Decimal(m), Decimal(d);
    NoDashInNumeral(y);
    NoDashInNumeral(m);
    NoDashInNumeral(d);
    var date := ys + "-" + ms + "-" + ds;
    assert date == ys + ['-'] + (ms + ['-'] + ds);
    ExplodeAtDelimiter('-', ys, ms + ['-'] + ds);
    ExplodeAtDelimiter('-', ms, ds);
    ExplodeWithoutDelimiter('-', ds);
    assert Explode('-', date) == [ys, ms, ds];
    assert date != "0" by { assert date[|ys|] == '-'; }
    IntCastDecimal(y);
    IntCastDecimal(m);
    IntCastDecimal(d);
    DateFields(JInt(y), JInt(m), JInt(d));
  }

  /** The numeral of a non-negative number has no '-'. */
  lemma NoDashInNumeral(n: nat)
    ensures '-' !in Decimal(n)
  {
    var r := Decimal(n);
    assert forall i :: 0 <= i < |r| ==> IsDigit(r[i]);
  }
}
