/**
  What the providers share: the result of `AbstractCitationProvider::makeRequest`
  as the model sees it, the outcome of one provider call as the service sees it,
  and the shape of one author in a citation array.
*/
module Provider {
  import opened PhpValues

  /**
    What `makeRequest($url)` gets: either the decoded body (JNull when the body
    is the JSON `null`) or a ProviderException, raised when the fetch fails or
    the body is not JSON. The fetch itself is outside the model. A decoded body
    that is neither null nor an array breaks the `?array` return type.
  */
  datatype Response = Decoded(body: Json) | RequestFailed(message: string)

  /**
    One `getCitationData` call as `generateCitation` sees it: a citation array,
    null, a ProviderException that escaped the provider, or an exception of
    any other type.
  */
  datatype Outcome = Data(citation: Json) | Null | ProviderError(message: string) | OtherError(message: string)

  /** The TypeError raised when `makeRequest` would return a decoded scalar through its `?array` return type. */
  const ReturnTypeError: string := "makeRequest(): Return value must be of type ?array"

  /** The TypeError raised when `transformData` is handed a value that is not an array. */
  const ArgumentTypeError: string := "transformData(): Argument #1 ($rawData) must be of type array"

  /** The author entry both providers write: `['family' => ..., 'given' => ...]`. */
  function AuthorArray(family: Json, given: Json): (r: Json)
    ensures Field(r, "family") == family && Field(r, "given") == given
  {
    var entries := [("family", family), ("given", given)];
    assert entries[0].0 != "given";
    EntryValueAt(entries, "given", 1);
    JObj(entries)
  }
}
