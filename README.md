# doi2jats in Dafny

doi2jats turns DOIs into JATS `element-citation` XML. The model covers each stage:

- **Validation.** A DOI is normalized: trimmed, lowered, and stripped of one resolver prefix. It is then checked against `^10\.\d+/.+`.
- **Providers.** Citation providers are asked in order: Crossref first, then OpenAlex. The first citation array returned wins. Each provider maps its own API's JSON to the flat citation array that `CitationData::fromArray` reads.
- **XML building.** `JatsXmlBuilder` builds one `element-citation` element per record. It appends the element to a document that it keeps for its whole lifetime.
- **Console.** The console application parses the command line. It resolves each DOI in turn, and files each outcome under citations or errors. An exception that no `catch` handles ends the run.

## Modules

- **`Wrappers`**: Option and Result.
- **`PhpStrings`**: the PHP string functions the pipeline uses: `trim`, `strtolower`, `explode`/`implode`, `(int)`/`(string)`, `urlencode`, and `htmlspecialchars` with libxml2 reading the text back.
- **`PhpValues`**: decoded JSON, and the operators applied to it: `??`, offsets, truthiness, `empty()`, `foreach`.
- **`Doi`**: `DoiValidator::validate`. Its two identical copies share one function.
- **`Citation`**: `CitationData` as a datatype, and `fromArray`.
- **`Provider`**: the request result and provider outcome types, and the author entry both providers write.
- **`Crossref`**, **`OpenAlex`**: request URL, outcome of one request, and `transformData`. Each has a function stating the result, and a method with the source's loop proved equal to it.
- **`Jats`**: `JatsXmlBuilder` as a class whose `document` field is the list of root elements. `buildCitation` appends to it. `addAuthors` and `addDateElements` are loop methods proved against spec functions.
- **`Service`**: `CitationService` as a class with its provider list and builder. `generateCitation` validates, runs the provider loop, and hands the first result to the builder. The two copies of the class share this model.
- **`Console`**: `ConsoleApplication`, with `parseArguments` (a while loop), `run`, `processDois` and the summary counts.

## How the interfaces are modelled

- **Providers.** A provider is a function from the validated DOI to an outcome: data, null, a ProviderException, or some other exception.
- **The network.** It is a `fetch` parameter that maps a URL to either a decoded body or a failed request.
- **XML.** Documents are trees, not serialized text.

## Model

| member | source | states |
|---|---|---|
| Doi.Normalize | src/Domain/Doi/DoiValidator.php:16 | computes `strtolower(trim($doi))` (see NormalizedIsClean, NormalizeFixed) |
| Doi.MatchesDoiPattern | src/Domain/Doi/DoiValidator.php:26 | computes whether `preg_match` of `#^10\.\d+/.+#` succeeds: "10.", a run of ASCII digits, '/', then a character other than a newline (see PatternMatchesShape) |
| Doi.Validate | src/Domain/Doi/DoiValidator.php:14-31 | a returned DOI always matches `^10\.\d+/.+` |
| Doi.CheckNormalized | src/CitationGenerator/DoiValidator.php:18-30 | after normalization: an `empty()` string is rejected, one prefix is stripped, and only a string matching the pattern is returned |
| Doi.StripResolverPrefix | src/Domain/Doi/DoiValidator.php:23 | the result is a suffix of the input: the anchored pattern only removes a leading part |
| Doi.StripWithoutPrefix | src/Domain/Doi/DoiValidator.php:23 | a string that starts with neither 'd' nor 'h' is left unchanged |
| Doi.StripBare | src/Domain/Doi/DoiValidator.php:23 | "doi.org/" in front of d leaves d |
| Doi.StripBareDx | src/Domain/Doi/DoiValidator.php:23 | "dx.doi.org/" in front of d leaves d |
| Doi.StripHttp | src/Domain/Doi/DoiValidator.php:23 | "http://doi.org/" in front of d leaves d |
| Doi.StripHttpDx | src/Domain/Doi/DoiValidator.php:23 | "http://dx.doi.org/" in front of d leaves d |
| Doi.StripHttps | src/Domain/Doi/DoiValidator.php:23 | "https://doi.org/" in front of d leaves d |
| Doi.StripHttpsDx | src/Domain/Doi/DoiValidator.php:23 | "https://dx.doi.org/" in front of d leaves d |
| Doi.StripListedPrefix | src/Domain/Doi/DoiValidator.php:23 | any of the six strings the prefix pattern matches, in front of d, leaves d |
| Doi.ListedCombination | src/Domain/Doi/DoiValidator.php:23 | each of the optional scheme (`https://`, `http://`, none) and optional `dx.`, in front of `doi.org/`, is one of the six listed prefixes |
| Doi.StripOnlyListed | src/Domain/Doi/DoiValidator.php:23 | a string that starts with none of the six listed prefixes is left unchanged: the pattern removes nothing else |
| Doi.PatternMatchesShape | src/Domain/Doi/DoiValidator.php:11 | the left-to-right scan of `^10\.\d+/.+` accepts exactly the strings of the shape "10.", one or more digits, '/', then a non-newline character |
| Doi.ValidateAcceptsIff | src/Domain/Doi/DoiValidator.php:14-31 | accepted exactly when the normalized, prefix-stripped input has the DOI shape, and then that form is returned; otherwise InvalidDoi carries that same form |
| Doi.CheckAcceptsIff | src/CitationGenerator/DoiValidator.php:18-30 | the same if-and-only-if for the steps after `strtolower(trim())` |
| Doi.NormalizedIsClean | src/Domain/Doi/DoiValidator.php:16 | after `strtolower(trim())` there is no upper-case ASCII and no trim character at either end |
| Doi.NormalizeFixed | src/Domain/Doi/DoiValidator.php:16 | a string without upper-case ASCII or surrounding trim characters normalizes to itself |
| Doi.PatternNeedsTen | src/Domain/Doi/DoiValidator.php:11 | the pattern is anchored: a string not starting with '1' never matches |
| Doi.CheckKeepsClean | src/Domain/Doi/DoiValidator.php:23-30 | prefix stripping keeps a clean string clean; an accepted result is non-empty |
| Doi.ValidateOutputNormalized | src/Domain/Doi/DoiValidator.php:16-30 | a validated DOI is non-empty, has no upper-case ASCII and no surrounding whitespace; the string an InvalidDoi carries has no upper-case ASCII |
| Doi.ValidateRejectsEmpty | src/Domain/Doi/DoiValidator.php:18-20 | input that is "" or "0" after normalization raises InvalidDoi with that string |
| Doi.ValidateSeesOnlyNormalized | src/Domain/Doi/DoiValidator.php:16 | validating the normalized input gives the same result as validating the raw input |
| Doi.ResolverPrefixClean | src/Domain/Doi/DoiValidator.php:23 | every matchable prefix is clean, at least eight characters, and does not start with '1' |
| Doi.NormalizeCleanPrefix | src/Domain/Doi/DoiValidator.php:16 | behind a clean head, normalization lowers and right-trims only the tail |
| Doi.ValidateClean | src/Domain/Doi/DoiValidator.php:16-30 | on a clean string validation is the post-normalization check alone |
| Doi.CheckAfterPrefix | src/Domain/Doi/DoiValidator.php:23-30 | after a resolver prefix the outcome is decided by whether the rest matches the pattern, and the rest is what is returned or reported |
| Doi.ValidateAfterCleanHead | src/Domain/Doi/DoiValidator.php:16 | with a clean head, validation sees the head and the lowered, right-trimmed tail |
| Doi.DoubledPrefixRejected | src/Domain/Doi/DoiValidator.php:23-28 | only one prefix is removed: two prefixes in a row fail with the second one still in front |
| Doi.ValidateIdempotent | src/Domain/Doi/DoiValidator.php:14-31 | a validated DOI validates to itself |
| Doi.ValidateTwice | src/Domain/Doi/DoiValidator.php:14-31 | validate(validate(x)) == validate(x) whenever the first call succeeds |
| Doi.CanonicalChecked | src/Domain/Doi/DoiValidator.php:23-30 | a string matching the pattern passes the post-normalization steps unchanged |
| Doi.CanonicalAccepted | src/Domain/Doi/DoiValidator.php:14-31 | a clean DOI-shaped string is returned unchanged |
| Doi.PrefixedAccepted | src/Domain/Doi/DoiValidator.php:23-30 | a resolver prefix in front of a clean DOI-shaped string is removed and the rest returned |
| Doi.PrefixedMatchAccepted | src/Domain/Doi/DoiValidator.php:23-30 | the same for a string that matches the pattern |
| Doi.NotStartingWithTenRejected | src/Domain/Doi/DoiValidator.php:26-28 | a clean input starting with neither a resolver prefix nor "10." is rejected |
| Doi.AssembledAccepted | src/Domain/Doi/DoiValidator.php:14-31 | "10." + digits + "/" + a clean suffix validates to itself |
| Doi.AssembledPrefixedAccepted | src/Domain/Doi/DoiValidator.php:23-30 | a resolver prefix in front of such a DOI is removed |
| Doi.SuiteAssembled | tests/Integration/DoiValidatorTest.php:13-31 | the suite's DOI and its https-prefixed form both validate to the DOI |
| Doi.LegacySuiteAssembled | tests/DoiValidatorTest.php:13-31 | the same for the older suite's DOI |
| Doi.CanonicalExample | tests/Integration/DoiValidatorTest.php:13-19 | "10.30430/gjae.2023.0350" validates to itself |
| Doi.PrefixedExample | tests/Integration/DoiValidatorTest.php:27-31 | "https://doi.org/10.30430/gjae.2023.0350" validates to "10.30430/gjae.2023.0350" |
| Doi.InvalidExample | tests/Integration/DoiValidatorTest.php:21-25 | "invalid-doi" raises InvalidDoi |
| Doi.LegacyCanonicalExample | tests/DoiValidatorTest.php:13-19 | "10.1038/nature12373" validates to itself |
| Doi.LegacyPrefixedExample | tests/DoiValidatorTest.php:27-31 | "https://doi.org/10.1038/nature12373" validates to "10.1038/nature12373" |
| Citation.WithDefaults | src/Domain/Citation/CitationData.php:9-23 | every parameter after title, authors and source defaults to null |
| Citation.FromArray | src/Domain/Citation/CitationData.php:25-41 | each field is non-null exactly when its key (`first_page`, `last_page`, `page_range` for the page fields) holds a value of the field's type; a missing `authors` gives the empty list |
| Citation.ToArray | src/Domain/Citation/CitationData.php:28-39 | a record's citation array carries the twelve keys `fromArray` reads, in order |
| Citation.ArrayKeysDistinct | src/Domain/Citation/CitationData.php:28-39 | no key is read for two fields |
| Citation.ToArrayLookup | src/Domain/Citation/CitationData.php:28-39 | each key finds its own entry |
| Citation.ToArrayHead | src/Domain/Citation/CitationData.php:28-31 | title, authors, source and year are read back from their keys |
| Citation.ToArrayMiddle | src/Domain/Citation/CitationData.php:32-35 | month, day, volume and issue are read back from their keys |
| Citation.ToArrayTail | src/Domain/Citation/CitationData.php:36-39 | the page fields and the DOI are read back from their snake-case keys |
| Citation.FromArrayToArray | src/Domain/Citation/CitationData.php:25-41 | every record is `fromArray` of its own citation array |
| Citation.FromArrayOfEmpty | src/Domain/Citation/CitationData.php:25-41 | an array without the keys gives all-null fields and no authors |
| Citation.GettersReturnArguments | src/Domain/Citation/CitationData.php:43-90 | each getter returns what the constructor was given |
| Citation.OnlyArrayKeysRead | src/Domain/Citation/CitationData.php:28-39 | arrays that agree on the twelve keys give the same record |
| Citation.OtherKeyIgnored | src/Domain/Citation/CitationData.php:28-39 | an entry under any other key changes nothing |
| Citation.CamelCaseKeyNotRead | src/Domain/Citation/CitationData.php:36 | a `firstPage` key does not set the first page |
| Provider.AuthorArray | src/CitationGenerator/CrossrefProvider.php:40-43 | the author entry's `family` and `given` are the values given |
| Crossref.Transform | src/CitationGenerator/CrossrefProvider.php:51-63 | the result has exactly the eleven keys of `transformData`'s array, in order |
| Crossref.TransformData | src/CitationGenerator/CrossrefProvider.php:36-64 | the author loop and the assembled array equal `Transform` |
| Crossref.RequestUrl | src/CitationGenerator/CrossrefProvider.php:17 | computes the base URL, '/', and the `urlencode`d DOI (its properties are in RequestUrlEncodesDoi) |
| Crossref.AuthorEntry | src/CitationGenerator/CrossrefProvider.php:40-43 | computes the `family`/`given` entry of one author, each read with `?? ''` (see AuthorEntryDefaults) |
| Crossref.MapAuthors | src/CitationGenerator/CrossrefProvider.php:39-44 | computes the author entries the `foreach` appends (see MapAuthorsPointwise) |
| Crossref.PublishedDate | src/CitationGenerator/CrossrefProvider.php:46-47 | computes the first `date-parts` list of `published-print`, else of `published-online`, else `[]` (see PrintDateFirst) |
| Crossref.ExtractPageData | src/CitationGenerator/CrossrefProvider.php:66-77 | computes `[]` for an `empty()` page string, else `first` and `last` as the first two pieces between '-' (see PageSplit and the lemmas after it) |
| Crossref.IllTyped | src/CitationGenerator/CrossrefProvider.php:18-25 | the responses for which `getCitationData` raises a TypeError: a decoded scalar body, or a truthy `message` that is not an array |
| Crossref.CarriesCitation | src/CitationGenerator/CrossrefProvider.php:20-25 | the responses whose `message` is a non-empty array |
| Crossref.ResponseOutcome | src/CitationGenerator/CrossrefProvider.php:14-29 | computes the outcome of one response: null for a failed request or a falsy `message`, a TypeError for a decoded scalar or a truthy non-array `message`, else the transformed `message` (see OutcomeCases) |
| Crossref.GetCitationData | src/CitationGenerator/CrossrefProvider.php:14-29 | one request to the URL for the DOI; the result is the outcome of that response |
| Crossref.OutcomeCases | src/CitationGenerator/CrossrefProvider.php:16-28 | a ProviderException never leaves the provider; data exactly when `message` is a non-empty array, and then it is the transformed `message`; a TypeError exactly when `makeRequest` returns a scalar (its `?array` return type, src/Infrastructure/Provider/AbstractCitationProvider.php:24) or `message` is truthy but not an array (`transformData(array $rawData)`); null in every other case, a failed request included |
| Crossref.RequestUrlEncodesDoi | src/CitationGenerator/CrossrefProvider.php:17 | the URL is the base URL, '/', and an encoded part without '/' that decodes to the DOI's bytes |
| Crossref.MapAuthorsPointwise | src/CitationGenerator/CrossrefProvider.php:38-44 | one author entry per input author, in order |
| Crossref.AuthorEntryDefaults | src/CitationGenerator/CrossrefProvider.php:41-42 | a missing or null `family` or `given` becomes "", any other value is kept |
| Crossref.TransformKeysDistinct | src/CitationGenerator/CrossrefProvider.php:51-63 | no key appears twice |
| Crossref.TransformLookup | src/CitationGenerator/CrossrefProvider.php:51-63 | each key of the result finds its own entry |
| Crossref.NoPageRange | src/CitationGenerator/CrossrefProvider.php:51-63 | there is no `page_range`, so the record has no page range |
| Crossref.TransformAuthors | src/CitationGenerator/CrossrefProvider.php:38-53 | `authors` lists one entry per element of `author`, in order |
| Crossref.PrintDateFirst | src/CitationGenerator/CrossrefProvider.php:46-47 | the print date wins whenever it is set, the online date only otherwise, and the empty list when neither is set |
| Crossref.TransformDate | src/CitationGenerator/CrossrefProvider.php:55-57 | year, month and day are date-parts elements 0, 1, 2, or null when the list is shorter |
| Crossref.TransformTitleAndSource | src/CitationGenerator/CrossrefProvider.php:52-54 | title and source are the first elements of `title` and `container-title`, or null |
| Crossref.PageDataFields | src/CitationGenerator/CrossrefProvider.php:73-76 | the page array's `first` and `last` are read back |
| Crossref.PageSplit | src/CitationGenerator/CrossrefProvider.php:72-76 | "a-b" gives first a and last the first piece of b |
| Crossref.PageThirdSegmentIgnored | src/CitationGenerator/CrossrefProvider.php:72-76 | "a-b-c" gives first a and last b |
| Crossref.PageSingleSegment | src/CitationGenerator/CrossrefProvider.php:72-76 | a page without '-' is the first page, with no last page |
| Crossref.PageEmpty | src/CitationGenerator/CrossrefProvider.php:68-70 | an `empty()` page gives neither |
| Crossref.TransformPages | src/CitationGenerator/CrossrefProvider.php:49-61 | a `page` "a-b" gives `first_page` a and `last_page` b |
| OpenAlex.Transform | src/Infrastructure/Provider/OpenAlexProvider.php:55-68 | the result has exactly the twelve keys `fromArray` reads, in order |
| OpenAlex.TransformData | src/Infrastructure/Provider/OpenAlexProvider.php:37-69 | the explode/array_pop/implode loop and the assembled array equal `Transform` |
| OpenAlex.RequestUrl | src/Infrastructure/Provider/OpenAlexProvider.php:19 | computes the base URL, "/https://doi.org/", and the `urlencode`d DOI (see RequestUrlEncodesDoi) |
| OpenAlex.FamilyName | src/Infrastructure/Provider/OpenAlexProvider.php:42-43 | computes the last space-separated piece of the display name, which `array_pop` removes (see FamilyNameHasNoSpace, NameSplitRoundTrip) |
| OpenAlex.GivenName | src/Infrastructure/Provider/OpenAlexProvider.php:42-44 | computes the pieces before the last, rejoined with spaces (see NameSplitRoundTrip, NameWithoutSpace) |
| OpenAlex.AuthorEntry | src/Infrastructure/Provider/OpenAlexProvider.php:41-49 | computes one authorship's entry: the popped family name and the rejoined given name of `display_name ?? ''` (see NameSplitRoundTrip) |
| OpenAlex.MapAuthors | src/Infrastructure/Provider/OpenAlexProvider.php:40-50 | computes the author entries the `foreach` appends (see MapAuthorsPointwise) |
| OpenAlex.Venue | src/Infrastructure/Provider/OpenAlexProvider.php:52 | computes `host_venue`, or `[]` when it is missing or null (see TransformVenue) |
| OpenAlex.ExtractDate | src/Infrastructure/Provider/OpenAlexProvider.php:71-83 | computes `[]` for an `empty()` date, else year, month and day as `(int)` of the pieces between '-', null for a missing piece (see DateParts, DateRoundTrip) |
| OpenAlex.IllTyped | src/Infrastructure/Provider/AbstractCitationProvider.php:24-46 | the responses for which `makeRequest` raises a TypeError: a decoded scalar body |
| OpenAlex.CarriesCitation | src/Infrastructure/Provider/OpenAlexProvider.php:22-26 | the responses whose body is a non-empty array |
| OpenAlex.ResponseOutcome | src/Infrastructure/Provider/OpenAlexProvider.php:16-30 | computes the outcome of one response: null for a failed request or a falsy body, a TypeError for a decoded scalar, else the transformed body (see OutcomeCases) |
| OpenAlex.GetCitationData | src/Infrastructure/Provider/OpenAlexProvider.php:16-30 | one request to the URL for the DOI; the result is the outcome of that response |
| OpenAlex.OutcomeCases | src/Infrastructure/Provider/OpenAlexProvider.php:18-29 | a ProviderException never leaves the provider; data exactly when the body is a non-empty array, and then it is the transformed body; a TypeError exactly when `makeRequest` returns a scalar, which its `?array` return type (src/Infrastructure/Provider/AbstractCitationProvider.php:24) refuses; null in every other case, a failed request included |
| OpenAlex.RequestUrlEncodesDoi | src/Infrastructure/Provider/OpenAlexProvider.php:19 | the URL is the base URL, "/https://doi.org/", and an encoded part without '/' that decodes to the DOI's bytes |
| OpenAlex.NameSplitRoundTrip | src/Infrastructure/Provider/OpenAlexProvider.php:42-44 | with a space in the display name, given + " " + family rebuilds it |
| OpenAlex.NameWithoutSpace | src/Infrastructure/Provider/OpenAlexProvider.php:42-44 | without a space the whole name is the family name and the given name is "" |
| OpenAlex.FamilyNameHasNoSpace | src/Infrastructure/Provider/OpenAlexProvider.php:42-43 | the popped family name never contains a space |
| OpenAlex.MapAuthorsPointwise | src/Infrastructure/Provider/OpenAlexProvider.php:40-50 | one author entry per authorship, in order |
| OpenAlex.TransformLookup | src/Infrastructure/Provider/OpenAlexProvider.php:55-68 | each key of the result finds its own entry |
| OpenAlex.TransformAuthors | src/Infrastructure/Provider/OpenAlexProvider.php:40-57 | `authors` lists one split name per authorship, in order |
| OpenAlex.TransformVenue | src/Infrastructure/Provider/OpenAlexProvider.php:52-66 | source, volume, issue and the three page fields come from `host_venue`, null when it is missing |
| OpenAlex.EmptyDateGivesNull | src/Infrastructure/Provider/OpenAlexProvider.php:73-75 | an `empty()` publication date gives null year, month and day |
| OpenAlex.DateFields | src/Infrastructure/Provider/OpenAlexProvider.php:78-82 | the date array's three keys are read back |
| OpenAlex.DateParts | src/Infrastructure/Provider/OpenAlexProvider.php:77-82 | the year is always set, the month exactly when there is a '-', the day exactly when there are three pieces, each the `(int)` of its piece |
| OpenAlex.DateRoundTrip | src/Infrastructure/Provider/OpenAlexProvider.php:71-83 | "Y-M-D" from non-negative numbers up to PHP_INT_MAX reads back as those numbers |
| Jats.AddElement | src/Infrastructure/Xml/JatsXmlBuilder.php:101-107 | computes the element `addElement` appends: none for null or "", else the tag with the escaped value as text (see AddElementText) |
| Jats.FamilyValue | src/Infrastructure/Xml/JatsXmlBuilder.php:50 | computes the value `addElement` is given for `surname`: `$author['family'] ?? ''` (see NameChildren) |
| Jats.NameElement | src/Infrastructure/Xml/JatsXmlBuilder.php:49-54 | computes the `name` element: `surname` from `family ?? ''`, then `given-names` when `given` is not `empty()` (see NameChildren) |
| Jats.PersonGroup | src/Infrastructure/Xml/JatsXmlBuilder.php:46-57 | computes the `person-group` of type author around one author's `name` (see PersonGroupTags) |
| Jats.DateElement | src/Infrastructure/Xml/JatsXmlBuilder.php:70-71 | computes the element for one date pair: `addElement` of `(string)$value` when the value is not null (see DateElementText, DateElementReadsBack) |
| Jats.DateElementsOf | src/Infrastructure/Xml/JatsXmlBuilder.php:69-73 | computes the elements the `foreach` over the date pairs appends, in order (see DateElementsInOrder, DateTags) |
| Jats.PageElements | src/Infrastructure/Xml/JatsXmlBuilder.php:76-90 | computes `fpage` (then `lpage`) for a truthy first page, else `page-range` for a truthy range (see PageElementsCases) |
| Jats.DoiElements | src/Infrastructure/Xml/JatsXmlBuilder.php:92-99 | computes the `pub-id` of type doi for a truthy DOI (see DoiElementText) |
| Jats.CitationElement | src/Infrastructure/Xml/JatsXmlBuilder.php:27-38 | computes the `element-citation` root with its children in `buildCitation`'s order (see CitationLayout) |
| Jats.JatsXmlBuilder.constructor | src/Infrastructure/Xml/JatsXmlBuilder.php:17-21 | a new builder's document is empty |
| Jats.JatsXmlBuilder.BuildCitation | src/Infrastructure/Xml/JatsXmlBuilder.php:23-41 | exactly one `element-citation` root, built from `fromArray` of the input, is appended after the earlier roots; the whole document is returned |
| Jats.JatsXmlBuilder.AddAuthors | src/Infrastructure/Xml/JatsXmlBuilder.php:43-59 | the loop appends exactly the person groups of the authors, in order, after what the parent had |
| Jats.JatsXmlBuilder.AddDateElements | src/Infrastructure/Xml/JatsXmlBuilder.php:61-74 | the loop appends exactly the date elements of year, month and day, after what the parent had |
| Jats.AddElementText | src/Infrastructure/Xml/JatsXmlBuilder.php:101-107 | an element is written exactly for a value that is neither null nor "", and its text is the value |
| Jats.NameChildren | src/Infrastructure/Xml/JatsXmlBuilder.php:49-54 | `surname` exactly for a non-empty string family, `given-names` exactly for a given string that is not `empty()`, each with that text |
| Jats.PersonGroupsPointwise | src/Infrastructure/Xml/JatsXmlBuilder.php:45-58 | one person group per author, in author order |
| Jats.PersonGroupTags | src/Infrastructure/Xml/JatsXmlBuilder.php:46-57 | every group is a `person-group` of type author holding that author's `name` |
| Jats.DateElementText | src/Infrastructure/Xml/JatsXmlBuilder.php:69-73 | a date element exactly for a non-null value, and its text is the value's decimal numeral |
| Jats.DateElementReadsBack | src/Infrastructure/Xml/JatsXmlBuilder.php:71 | for a value within PHP's integer range, the one element written has a text that `(int)` reads back as the value |
| Jats.DateElementsInOrder | src/Infrastructure/Xml/JatsXmlBuilder.php:63-73 | year, then month, then day, each present exactly when not null |
| Jats.DateTags | src/Infrastructure/Xml/JatsXmlBuilder.php:63-73 | the date tags are those of the non-null fields, in order |
| Jats.PageElementsCases | src/Infrastructure/Xml/JatsXmlBuilder.php:76-90 | `fpage` (then `lpage` if the last page is truthy) for a truthy first page, else `page-range` for a truthy range, else nothing |
| Jats.PageTags | src/Infrastructure/Xml/JatsXmlBuilder.php:82-89 | the page tags under those conditions |
| Jats.DoiElementText | src/Infrastructure/Xml/JatsXmlBuilder.php:92-99 | a `pub-id` of type doi whose text is the DOI, exactly for a truthy DOI |
| Jats.TextTags | src/Infrastructure/Xml/JatsXmlBuilder.php:103-106 | `addElement` writes its tag exactly for a value neither null nor "" |
| Jats.HeadTags | src/Infrastructure/Xml/JatsXmlBuilder.php:31-36 | the tags before the pages: person groups, article-title, source, dates, volume, issue, each under its condition |
| Jats.DoiTags | src/Infrastructure/Xml/JatsXmlBuilder.php:94-98 | `pub-id` exactly for a truthy DOI |
| Jats.ChildrenTags | src/Infrastructure/Xml/JatsXmlBuilder.php:31-38 | the children's tags are the head block, the page block, then the DOI |
| Jats.CitationLayout | src/Infrastructure/Xml/JatsXmlBuilder.php:27-38 | the root is `element-citation` with `publication-type="journal"`, and its children's tags come in the fixed order, each under its own condition |
| Jats.PageTagNotBefore | src/Infrastructure/Xml/JatsXmlBuilder.php:31-36 | no page tag is written before the page block |
| Jats.PageBlockTags | src/Infrastructure/Xml/JatsXmlBuilder.php:82-89 | within the page block `fpage` and `page-range` exclude each other, and `lpage` needs `fpage` |
| Jats.PageTagsOnlyInPageBlock | src/Infrastructure/Xml/JatsXmlBuilder.php:31-38 | a page tag occurs among the children exactly when it occurs in the page block |
| Jats.FpageExcludesPageRange | src/Infrastructure/Xml/JatsXmlBuilder.php:82-89 | a citation never has both `fpage` and `page-range` |
| Jats.LpageNeedsFpage | src/Infrastructure/Xml/JatsXmlBuilder.php:82-86 | `lpage` is written only together with `fpage` |
| Service.CitationService.constructor | src/Service/CitationService.php:15-19 | the service keeps the providers and the builder it is given |
| Service.CitationService.GenerateCitation | src/Service/CitationService.php:22-42 | an invalid DOI raises InvalidDoi with the normalized form before any provider is called and leaves the document; otherwise the provider loop's data is built into the document, which is returned, and its error is raised with the document left as it was |
| Service.CitationService.QueryProviders | src/Service/CitationService.php:26-41 | the loop calls the providers in order, skips null and ProviderException, and stops at the first data or other exception, with the count of calls |
| Service.CitationService.AddProvider | src/Service/CitationService.php:45-48 | the provider is appended after the earlier ones |
| Service.FirstDataWins | src/Service/CitationService.php:26-32 | when provider k has data and all before it are skipped, the result is provider k's data and k + 1 providers are called |
| Service.ExhaustedNamesDoi | src/Service/CitationService.php:41 | when every provider is skipped, all are called and the error names the DOI |
| Service.ResolveExplained | src/CitationGenerator/CitationService.php:24-38 | conversely: every provider called before the last was skipped, the result is data exactly when the last one called had data, and it is a CitationException exactly when all were skipped |
| Service.AddedProviderIsLast | src/CitationGenerator/CitationService.php:44-47 | an added provider changes a result only when every earlier provider was skipped |
| Service.Resolve | src/Service/CitationService.php:26-41 | computes the provider loop's result: the first data, the first exception that is not a ProviderException, or the CitationException naming the DOI (see FirstDataWins, ResolveExplained) |
| Service.Generate | src/Service/CitationService.php:22-42 | computes `generateCitation`'s result and the document afterwards: InvalidDoi for an invalid DOI, else the loop's result, with data built into the document (see GenerateCitation) |
| Service.DefaultProviders | src/Core/Application/ConsoleApplication.php:27-30 | computes the configured provider list: Crossref, then OpenAlex (see CrossrefThenOpenAlex) |
| Service.CrossrefCall | src/Core/Application/ConsoleApplication.php:28 | computes the Crossref provider as a call: the outcome of the response to its request URL (see CrossrefThenOpenAlex) |
| Service.OpenAlexCall | src/Core/Application/ConsoleApplication.php:29 | computes the OpenAlex provider as a call: the outcome of the response to its request URL (see CrossrefThenOpenAlex) |
| Service.CrossrefThenOpenAlex | src/Core/Application/ConsoleApplication.php:27-33 | with the configured providers the result is Crossref's citation, else the TypeError Crossref raises, else OpenAlex's citation, else its TypeError, else the CitationException |
| Service.DefaultProvidersPropagate | src/Core/Application/ConsoleApplication.php:60-65 | with the configured providers, `generateCitation` raises an exception other than InvalidDoiException and CitationException exactly when the DOI is valid and Crossref raises a TypeError, or Crossref has no citation and OpenAlex raises one |
| Console.Parse | src/Core/Application/ConsoleApplication.php:92-135 | computes `parseArguments`: the loop from index 1 with no DOIs, verbose off and format "individual" (see ParseGuarantees) |
| Console.ParseFrom | src/Core/Application/ConsoleApplication.php:98-128 | computes the rest of the loop: a verbose flag sets verbose, a format flag takes the next argument or exits with 1, a help flag exits with 0, anything else is a DOI (see the parsing lemmas) |
| Console.Operands | src/Core/Application/ConsoleApplication.php:101-126 | computes, independently of the loop, the arguments that are neither a flag nor the value after a format flag (see ParseFromOperands) |
| Console.Message | src/Core/Exception/InvalidDoiException.php:11 | computes `getMessage()`: "Invalid DOI format: " and the DOI, or the CitationException's or escaping exception's own message |
| Console.Record | src/Core/Application/ConsoleApplication.php:148-165 | computes one pass of the `try`/`catch`: a result goes to the citations, an InvalidDoiException or CitationException message to the errors, any other exception is marked uncaught (see RecordStep, ProcessOne) |
| Console.ProcessSpec | src/Core/Application/ConsoleApplication.php:143-166 | computes processing the DOIs in order, each call building on the document the previous one left, until an uncaught exception stops the loop (see ProcessPartition, UncaughtStops) |
| Console.DoiColumn | src/Core/Application/ConsoleApplication.php:150-159 | the `doi` entry of each row of a result list, in order |
| Console.Summary | src/Core/Application/ConsoleApplication.php:277-281 | successful and failed are the list lengths and the total is their sum |
| Console.ConsoleApplication.constructor | src/Core/Application/ConsoleApplication.php:20-34 | verbose off, format "individual", a new service with Crossref then OpenAlex and a new, empty builder |
| Console.ConsoleApplication.ParseArguments | src/Core/Application/ConsoleApplication.php:92-135 | the `for` loop over the arguments gives exactly `Parse(args)` |
| Console.ConsoleApplication.ProcessOne | src/Core/Application/ConsoleApplication.php:148-165 | one pass of the `foreach`: the result is added to the citations, an InvalidDoiException or CitationException message to the errors, and any other exception is recorded as uncaught |
| Console.ConsoleApplication.ProcessDois | src/Core/Application/ConsoleApplication.php:138-169 | the lists and the document are those of resolving the DOIs in order, each call building on the document the last one left; the loop ends at the first exception it does not catch, which is returned |
| Console.ConsoleApplication.Run | src/Core/Application/ConsoleApplication.php:37-66 | fewer than two arguments or no DOIs exit with 1 and a parser exit with its own code, all changing nothing; otherwise verbose and format are stored, and the result is the two lists, or the uncaught exception that neither `catch` handles (lines 60-65) |
| Console.PlainRun | src/Core/Application/ConsoleApplication.php:122-126 | arguments that are not options are collected as they are |
| Console.PlainArguments | src/Core/Application/ConsoleApplication.php:92-135 | without options every argument after the program name is a DOI and the defaults stay |
| Console.ParseFromIgnoresHead | src/Core/Application/ConsoleApplication.php:98 | the loop never reads index 0 |
| Console.ProgramNameIgnored | src/Core/Application/ConsoleApplication.php:98 | any program name gives the same parse |
| Console.HelpExitsFrom | src/Core/Application/ConsoleApplication.php:118-121 | a help flag with no help or format flag before it, from any point of the loop, exits with 0 |
| Console.HelpExits | src/Core/Application/ConsoleApplication.php:118-121 | a help flag reached before any other help or format flag exits with 0, whatever DOIs and verbose flags come before it |
| Console.VerboseThenHelp | src/Core/Application/ConsoleApplication.php:102-121 | `-v -h` exits with 0 |
| Console.FormatTakesNext | src/Core/Application/ConsoleApplication.php:107-115 | a format flag takes the next argument: a known format is kept and parsing resumes after it, any other value exits with 1 |
| Console.TrailingFormatIgnored | src/Core/Application/ConsoleApplication.php:109 | a format flag with nothing after it is ignored |
| Console.ParseFromFormat | src/Core/Application/ConsoleApplication.php:107-115 | a parse only ends with one of the three formats |
| Console.ParseFromVerbose | src/Core/Application/ConsoleApplication.php:102-106 | verbose is on exactly when a verbose flag is among the arguments read as flags |
| Console.ParseFromDois | src/Core/Application/ConsoleApplication.php:122-126 | the collected DOIs are the arguments with some left out, in input order, none of them an option |
| Console.ParseFromOperands | src/Core/Application/ConsoleApplication.php:122-126 | a successful parse collects exactly the operands, in order |
| Console.ParseFromExit | src/Core/Application/ConsoleApplication.php:111-121 | an exit is code 0 after a help flag or code 1 after a format flag with an unknown value |
| Console.ParseGuarantees | src/Core/Application/ConsoleApplication.php:92-135 | a parse from index 1 ends with one of the three formats; verbose is on exactly when a verbose flag is present; the DOIs are exactly the operands, a subsequence of the arguments, none an option; an exit is 0 after a help flag or 1 after a format flag with a bad value |
| Console.RecordStep | src/Core/Application/ConsoleApplication.php:148-165 | one DOI adds one entry, under that DOI, to exactly one of the two lists, or marks an uncaught exception and leaves both lists |
| Console.PartitionStep | src/Core/Application/ConsoleApplication.php:148-165 | after one more DOI the two lists still partition the DOIs they cover, and cover all of them unless an exception escaped |
| Console.ProcessStep | src/Core/Application/ConsoleApplication.php:143 | processing one more DOI of the input is one more record, while nothing has escaped |
| Console.UncaughtStops | src/Core/Application/ConsoleApplication.php:148-165 | once an exception has escaped, later DOIs are not processed |
| Console.ProcessPartition | src/Core/Application/ConsoleApplication.php:143-166 | the DOIs processed are a prefix of the input, all of them exactly when no exception escaped; the citation and error DOIs interleave to that prefix, each list in input order |
| Console.SummaryTotalIsDoiCount | src/Core/Application/ConsoleApplication.php:279 | the summary total is the number of DOIs exactly when no exception escaped |
| PhpStrings.Trim | src/Domain/Doi/DoiValidator.php:16 | the result neither starts nor ends with a trim character |
| PhpStrings.TrimUnchanged | src/Domain/Doi/DoiValidator.php:16 | a string without a trim character at either end is unchanged |
| PhpStrings.TrimPrepended | src/Domain/Doi/DoiValidator.php:16 | behind a head without trim characters at its ends, only the tail is trimmed |
| PhpStrings.ToLower | src/Domain/Doi/DoiValidator.php:16 | each character is lowered on its own and the length is kept |
| PhpStrings.ToLowerUnchanged | src/Domain/Doi/DoiValidator.php:16 | a string without upper-case ASCII is unchanged |
| PhpStrings.ToLowerNoUpper | src/Domain/Doi/DoiValidator.php:16 | the result of `strtolower` has no upper-case ASCII |
| PhpStrings.Explode | src/CitationGenerator/CrossrefProvider.php:72 | at least one piece, none containing the delimiter |
| PhpStrings.ImplodeExplode | src/Infrastructure/Provider/OpenAlexProvider.php:42-44 | gluing the pieces with the delimiter gives back the string |
| PhpStrings.ExplodeSplits | src/Infrastructure/Provider/OpenAlexProvider.php:42 | two or more pieces exactly when the delimiter occurs |
| PhpStrings.ExplodeAtDelimiter | src/CitationGenerator/CrossrefProvider.php:72 | a delimiter-free head is the first piece and the rest splits on its own |
| PhpStrings.ExplodeWithoutDelimiter | src/CitationGenerator/CrossrefProvider.php:72 | a delimiter-free string is one piece |
| PhpStrings.Implode | src/Infrastructure/Provider/OpenAlexProvider.php:44 | computes the pieces joined with the glue between each two (see ImplodeExplode) |
| PhpStrings.LeadingDigits | src/Domain/Doi/DoiValidator.php:11 | the longest run of ASCII digits at the start |
| PhpStrings.LeadingDigitsStop | src/Domain/Doi/DoiValidator.php:11 | the digit run of digits followed by a non-digit is exactly those digits |
| PhpStrings.Decimal | src/Infrastructure/Xml/JatsXmlBuilder.php:71 | `(string)` of an integer: digits, with a leading '-' when negative |
| PhpStrings.Saturate | src/Infrastructure/Provider/OpenAlexProvider.php:79 | clamps to PHP's 64-bit range and leaves every value inside it unchanged |
| PhpStrings.SkipNumericSpace | src/Infrastructure/Provider/OpenAlexProvider.php:79 | the suffix after the leading whitespace `(int)` skips; what was skipped is all such whitespace, and the rest does not start with any |
| PhpStrings.IntCast | src/Infrastructure/Provider/OpenAlexProvider.php:79-81 | `(int)` of a string: leading whitespace skipped, an optional sign, then the leading digits, saturated at PHP_INT_MAX / PHP_INT_MIN; the result is always in the 64-bit range |
| PhpStrings.IntCastDecimal | src/Infrastructure/Provider/OpenAlexProvider.php:79 | `(int)` of the numeral of an integer in the 64-bit range is that integer |
| PhpStrings.IntCastSkipsSpace | src/Infrastructure/Provider/OpenAlexProvider.php:79 | leading spaces, tabs, newlines, carriage returns, vertical tabs and form feeds do not change `(int)` |
| PhpStrings.IntCastSaturates | src/Infrastructure/Provider/OpenAlexProvider.php:79 | a digit string above PHP_INT_MAX reads as PHP_INT_MAX |
| PhpStrings.IntCastSaturatesNegative | src/Infrastructure/Provider/OpenAlexProvider.php:79 | '-' and a digit string below PHP_INT_MIN reads as PHP_INT_MIN |
| PhpStrings.IntCastNoDigits | src/Infrastructure/Provider/OpenAlexProvider.php:79 | a string starting with neither whitespace, a sign nor a digit reads as 0 |
| PhpStrings.UrlEncode | src/CitationGenerator/CrossrefProvider.php:17 | the result holds only letters, digits, '-', '_', '.', '%' and '+' |
| PhpStrings.UrlDecode | src/CitationGenerator/CrossrefProvider.php:17 | computes `urldecode`: '+' is a space, `%XX` a byte, every other character itself (the partner of UrlEncode in UrlDecodeEncode) |
| PhpStrings.UrlDecodeEncode | src/CitationGenerator/CrossrefProvider.php:17 | decoding the encoding gives the UTF-8 bytes of the input |
| PhpStrings.HtmlSpecialChars | src/Infrastructure/Xml/JatsXmlBuilder.php:104 | the result has no '<', '>', '"' or '\'' |
| PhpStrings.XmlContent | src/Infrastructure/Xml/JatsXmlBuilder.php:104 | computes the text libxml2 stores for escaped content: the five entity references read as their characters (the partner of HtmlSpecialChars in ContentOfEscaped) |
| PhpStrings.ContentOfEscaped | src/Infrastructure/Xml/JatsXmlBuilder.php:104 | the element text libxml2 stores for an escaped value is the value |
| PhpValues.Field | src/CitationGenerator/CrossrefProvider.php:20 | computes `$v['name']` under `??`: the entry of an array, null for a missing key or a non-array |
| PhpValues.At | src/CitationGenerator/CrossrefProvider.php:52 | computes `$v[n]` under `??`: a list item, an array entry under the numeral of n, a one-character string, or null |
| PhpValues.Truthy | src/CitationGenerator/CrossrefProvider.php:21 | computes PHP's conversion to bool: null, false, 0, "", "0" and the empty array are false |
| PhpValues.IsArray | src/Infrastructure/Provider/AbstractCitationProvider.php:24 | a PHP array: what `json_decode` makes of a JSON list or object |
| PhpValues.IsEmptyString | src/CitationGenerator/CrossrefProvider.php:68 | computes `empty()` of a string: "" and "0" |
| PhpValues.TruthyString | src/Infrastructure/Xml/JatsXmlBuilder.php:82 | computes the truthiness of a nullable string, as in `if ($firstPage)` and `if ($doi)`: set and neither "" nor "0" (see PageElementsCases, DoiElementText) |
| PhpValues.Or | src/CitationGenerator/CrossrefProvider.php:41-42 | `??` gives the value unless it is missing or null, and is null only when both sides are |
| PhpValues.Values | src/CitationGenerator/CrossrefProvider.php:39 | `foreach` visits a list's items or an array's values in order, and nothing for a non-array |
| PhpValues.AsNullableString | src/Domain/Citation/CitationData.php:28 | a string exactly when the value is a string |
| PhpValues.AsNullableInt | src/Domain/Citation/CitationData.php:31 | an integer exactly when the value is an integer |

## Left out

- The network: `makeRequest`'s `file_get_contents`, headers, timeout and `json_decode` are the `fetch` parameter. Its result is a decoded body or a failed request, which stands for a ProviderException. JSON floats and duplicate keys are not modelled. A JSON integer is an unbounded `JInt`, although `json_decode` yields an `int` only within the 64-bit range and a float beyond it.
- `error_log`, `fwrite` to STDERR, `showUsage` and every `echo`: output is not modelled. Neither are the three output formats (`outputIndividual`, `outputCombined`, `outputBibliography`) nor the printing condition of `outputSummary`. Only the counts are modelled.
- `exit()` is modelled as a returned exit code (`Exited`), not as the end of the process. An uncaught exception is modelled as the result `Uncaught` with its message. PHP's fatal error, its output and its exit status are not modelled.
- `saveXML()`, `formatOutput` and `?: ''`: `buildCitation` returns the document as element trees, not as serialized text.
- `JatsXmlBuilder` builds the root's children first and appends the finished root afterwards. The source appends the root first and fills it in place; the final document is the same.
- TypeErrors: two are modelled. `makeRequest` returning a decoded scalar against its `?array` return type raises one. Crossref's `transformData` given a truthy `message` that is not an array raises the other. Both escape `generateCitation`, `processDois` and `run`. Every other wrong-typed provider value is read as null, "" or an empty list: a `string` parameter given a number (`extractPageData`, `extractDate`, `explode`), or a `CitationData` property given the wrong type. PHP would throw there too under `strict_types`.
- The TypeError messages are shortened to the function and the declared type. PHP's message also names the type it was given.
- `surname` is written only for a non-empty family name, because `addElement` skips "" (src/Infrastructure/Xml/JatsXmlBuilder.php:103). The model follows the code.
- `getProviderName()` goes into the ProviderException `makeRequest` throws (src/Infrastructure/Provider/AbstractCitationProvider.php:37,43). Each provider's own `catch` discards that exception, so the name reaches neither `generateCitation` nor its `error_log` call. The names are kept as the `Name` constants. The exception's message is whatever `RequestFailed` carries from the `fetch` parameter.
- Console.ConsoleApplication.ProcessDois: the citations and errors gathered before an uncaught exception are still returned alongside it. In PHP they are lost with the stack frame, and `run` reports only the exception.
- The older `CitationGenerator\CitationService` catches `ProviderException` without an import. In its namespace that name is `CitationGenerator\ProviderException`, and that class is not part of this model. Both service copies are modelled as catching the provider exception.
- `CitationGenerator\CrossrefProvider` extends `AbstractCitationProvider` in its own namespace. The console imports `Infrastructure\Provider\CrossrefProvider`, which is not part of this model. The Crossref text modelled here is `src/CitationGenerator/CrossrefProvider.php`.
- `doi2jats.php`, `Application.php`, `config/providers.php` and the interfaces are not part of this model.
- PhpStrings.IntCast: `(int)` of a numeral with a fraction or an exponent ("2.5", "1e3") goes through a double in PHP, so "1e3" is 1000. The model reads only the optional sign and the leading digits, so it gives 1 there. Floating point is not modelled.
