/**
  `CitationService`: validates a DOI, asks the providers in list order for
  citation data, hands the first result that is not null to the XML builder,
  and fails when every provider is exhausted. The two copies of the class
  (`CitationGenerator\Service\CitationService` and the older
  `CitationGenerator\CitationService`) behave the same and share this model.
*/
module Service {
  import opened Wrappers
  import opened PhpValues
  import opened Provider
  import Doi
  import Citation
  import Jats
  import Crossref
  import OpenAlex

  /** One provider's `getCitationData($validatedDoi)`, as a function of the DOI it is given. */
  type ProviderCall = string -> Outcome

  /**
    What `generateCitation` raises: the validator's InvalidDoiException, the
    CitationException for exhaustion, or an exception of another type that a
    provider let escape and that the loop does not catch.
  */
  datatype CitationError =
    | InvalidDoi(invalid: Doi.InvalidDoi)
    | NoCitationFound(message: string)
    | Propagated(message: string)

  /** The CitationException message, followed by the validated DOI. */
  const NotFoundPrefix: string := "No citation data found for DOI: "

  /** An outcome after which the loop moves on to the next provider: null, or a caught ProviderException. */
  predicate Skipped(o: Outcome) {
    o.Null? || o.ProviderError?
  }

  /** The result of the provider loop for a validated DOI: the first citation array, or the exception that ends it. */
  function Resolve(providers: seq<ProviderCall>, doi: string): Result<Json, CitationError> {
    if providers == [] then Err(NoCitationFound(NotFoundPrefix + doi))
    else
      match providers[0](doi)
      case Data(citation) => Ok(citation)
      case OtherError(message) => Err(Propagated(message))
      case _ => Resolve(providers[1..], doi)
  }

  /** How many providers the loop calls before it returns or raises. */
  function Consulted(providers: seq<ProviderCall>, doi: string): nat {
    if providers == [] then 0
    else if Skipped(providers[0](doi)) then 1 + Consulted(providers[1..], doi)
    else 1
  }

  /** One `generateCitation` call: its result and the builder's document afterwards. */
  datatype Generated = Generated(result: Result<seq<Jats.Element>, CitationError>, document: seq<Jats.Element>)

  /** What `generateCitation` does with the given providers, starting from the given document. */
  function Generate(providers: seq<ProviderCall>, document: seq<Jats.Element>, doi: string): Generated {
    match Doi.Validate(doi)
    case Err(invalid) => Generated(Err(InvalidDoi(invalid)), document)
    case Ok(validated) =>
      match Resolve(providers, validated)
      case Ok(data) =>
        var built := document + [Jats.CitationElement(Citation.FromArray(data))];
        Generated(Ok(built), built)
      case Err(e) => Generated(Err(e), document)
  }

  /** `CitationService`: the provider list and the XML builder given to the constructor. */
  class CitationService {
    var providers: seq<ProviderCall>
    const xmlBuilder: Jats.JatsXmlBuilder

    constructor(providers: seq<ProviderCall>, xmlBuilder: Jats.JatsXmlBuilder)
      ensures this.providers == providers && this.xmlBuilder == xmlBuilder
    {
      this.providers := providers;
      this.xmlBuilder := xmlBuilder;
    }

    /**
      `generateCitation($doi)`. An invalid DOI raises before any provider is
      called. Otherwise the providers are called in order with the validated
      DOI until one yields data, which is built into the builder's document
      and returned; `consulted` counts the calls made.
    */
    method GenerateCitation(doi: string) returns (r: Result<seq<Jats.Element>, CitationError>, ghost consulted: nat)
      modifies xmlBuilder
      ensures Doi.Validate(doi).Err? ==>
        && r == Err(InvalidDoi(Doi.Validate(doi).error))
        && consulted == 0
        && unchanged(xmlBuilder)
      ensures Doi.Validate(doi).Ok? ==>
        var validated := Doi.Validate(doi).value;
        && consulted == Consulted(providers, validated)
        && match Resolve(providers, validated)
           case Ok(data) =>
             && xmlBuilder.document == old(xmlBuilder.document) + [Jats.CitationElement(Citation.FromArray(data))]
             && r == Ok(xmlBuilder.document)
           case Err(e) => r == Err(e) && unchanged(xmlBuilder)
      ensures Generated(r, xmlBuilder.document) == Generate(providers, old(xmlBuilder.document), doi)
    {
      var validation := Doi.Validate(doi);
      if validation.Err? {
        return Err(InvalidDoi(validation.error)), 0;
      }
      r, consulted := QueryProviders(validation.value);
    }

    /**
      The `foreach` of `generateCitation`: the providers in order, each given
      the validated DOI; null and a ProviderException (logged) move on, data is
      built and returned, any other exception escapes.
    */
    method QueryProviders(validatedDoi: string) returns (r: Result<seq<Jats.Element>, CitationError>, ghost consulted: nat)
      modifies xmlBuilder
      ensures consulted == Consulted(providers, validatedDoi)
      ensures match Resolve(providers, validatedDoi)
        case Ok(data) =>
          && xmlBuilder.document == old(xmlBuilder.document) + [Jats.CitationElement(Citation.FromArray(data))]
          && r == Ok(xmlBuilder.document)
        case Err(e) => r == Err(e) && unchanged(xmlBuilder)
    {
      consulted := 0;
      for i := 0 to |providers|
        invariant Resolve(providers, validatedDoi) == Resolve(providers[i..], validatedDoi)
        invariant Consulted(providers, validatedDoi) == i + Consulted(providers[i..], validatedDoi)
        invariant consulted == i
        invariant unchanged(xmlBuilder)
      {
        var citationData := providers[i](validatedDoi);
        consulted := i + 1;
        match citationData
        case Data(data) =>
          var xml := xmlBuilder.BuildCitation(data);
          return Ok(xml), consulted;
        case OtherError(message) =>
          return Err(Propagated(message)), consulted;
        case _ =>
          assert providers[i..][1..] == providers[i + 1..];
      }
      return Err(NoCitationFound(NotFoundPrefix + validatedDoi)), consulted;
    }

    /** `addProvider($provider)`: appended at the end, the earlier providers kept in order. */
    method AddProvider(provider: ProviderCall)
      modifies this
      ensures providers == old(providers) + [provider]
    {
      providers := providers + [provider];
    }
  }

  // ---------------------------------------------------------------- properties

  /**
    First success wins: when provider k yields data and every earlier one
    yields null or a ProviderException, the result is provider k's data, even
    an empty array, and exactly k + 1 providers are called.
  */
  lemma {:induction false} FirstDataWins(providers: seq<ProviderCall>, doi: string, k: nat)
    requires k < |providers| && providers[k](doi).Data?
    requires forall j :: 0 <= j < k ==> Skipped(providers[j](doi))
    ensures Resolve(providers, doi) == Ok(providers[k](doi).citation)
    ensures Consulted(providers, doi) == k + 1
    decreases k
  {
    if k > 0 {
      FirstDataWins(providers[1..], doi, k - 1);
    }
  }

  /** When every provider yields null or a ProviderException, all are called and the error names the DOI. */
  lemma {:induction false} ExhaustedNamesDoi(providers: seq<ProviderCall>, doi: string)
    requires forall j :: 0 <= j < |providers| ==> Skipped(providers[j](doi))
    ensures Resolve(providers, doi) == Err(NoCitationFound(NotFoundPrefix + doi))
    ensures Consulted(providers, doi) == |providers|
    decreases |providers|
  {
    if providers != [] {
      ExhaustedNamesDoi(providers[1..], doi);
    }
  }

  /**
    The converse: the providers called before the last one all yielded null or a
    ProviderException; the result is data exactly when the last one called yielded
    data, and a CitationException exactly when none yielded data or another exception.
  */
  lemma {:induction false} ResolveExplained(providers: seq<ProviderCall>, doi: string)
    ensures var k := Consulted(providers, doi);
      && k <= |providers|
      && (forall j :: 0 <= j < k - 1 ==> Skipped(providers[j](doi)))
      && (Resolve(providers, doi).Ok? <==> k > 0 && providers[k - 1](doi).Data?)
      && (Resolve(providers, doi).Ok? ==> Resolve(providers, doi).value == providers[k - 1](doi).citation)
      && (Resolve(providers, doi).Err? && Resolve(providers, doi).error.NoCitationFound? <==>
          forall j :: 0 <= j < |providers| ==> Skipped(providers[j](doi)))
    decreases |providers|
  {
    if providers != [] {
      var rest := providers[1..];
      ResolveExplained(rest, doi);
      forall j | 0 <= j < |rest|
        ensures rest[j] == providers[j + 1]
      {
      }
    }
  }

  /**
    `addProvider` never changes a result already found: a new provider is only
    reached when every earlier one yielded null or a ProviderException.
  */
  lemma {:induction false} AddedProviderIsLast(providers: seq<ProviderCall>, provider: ProviderCall, doi: string)
    ensures Resolve(providers + [provider], doi) ==
      if Resolve(providers, doi).Err? && Resolve(providers, doi).error.NoCitationFound?
      then Resolve([provider], doi)
      else Resolve(providers, doi)
    decreases |providers|
  {
    if providers != [] {
      assert (providers + [provider])[1..] == providers[1..] + [provider];
      AddedProviderIsLast(providers[1..], provider, doi);
    }
  }

  /** The providers `ConsoleApplication` configures, in its order: Crossref, then OpenAlex. */
  function DefaultProviders(fetch: string -> Response): seq<ProviderCall> {
    [CrossrefCall(fetch), OpenAlexCall(fetch)]
  }

  /** The Crossref provider, calling `fetch` for its request. */
  function CrossrefCall(fetch: string -> Response): ProviderCall {
    d => Crossref.ResponseOutcome(fetch(Crossref.RequestUrl(d)))
  }

  /** The OpenAlex provider, calling `fetch` for its request. */
  function OpenAlexCall(fetch: string -> Response): ProviderCall {
    d => OpenAlex.ResponseOutcome(fetch(OpenAlex.RequestUrl(d)))
  }

  /**
    With Crossref first and OpenAlex second: Crossref's citation if it has one,
    its TypeError if it raises one, and otherwise the same for OpenAlex, with
    the CitationException when neither has a citation.
  */
  lemma CrossrefThenOpenAlex(fetch: string -> Response, doi: string)
    ensures var crossref := fetch(Crossref.RequestUrl(doi));
      var openAlex := fetch(OpenAlex.RequestUrl(doi));
      Resolve(DefaultProviders(fetch), doi) ==
        if Crossref.CarriesCitation(crossref) then Ok(Crossref.Transform(Field(crossref.body, "message")))
        else if Crossref.IllTyped(crossref) then Err(Propagated(Crossref.ResponseOutcome(crossref).message))
        else if OpenAlex.CarriesCitation(openAlex) then Ok(OpenAlex.Transform(openAlex.body))
        else if OpenAlex.IllTyped(openAlex) then Err(Propagated(ReturnTypeError))
        else Err(NoCitationFound(NotFoundPrefix + doi))
  {
    var ps := DefaultProviders(fetch);
    var crossref := fetch(Crossref.RequestUrl(doi));
    var openAlex := fetch(OpenAlex.RequestUrl(doi));
    Crossref.OutcomeCases(crossref);
    OpenAlex.OutcomeCases(openAlex);
    assert ps[0](doi) == Crossref.ResponseOutcome(crossref);
    assert ps[1](doi) == OpenAlex.ResponseOutcome(openAlex);
    assert ps[1..] == [OpenAlexCall(fetch)];
    assert ps[1..][1..] == [];
    assert Resolve(ps[1..][1..], doi) == Err(NoCitationFound(NotFoundPrefix + doi));
  }

  /**
    With the configured providers, `generateCitation` raises an exception other
    than InvalidDoiException and CitationException exactly when the DOI is valid
    and Crossref's response has a value of the wrong type, or Crossref has no
    citation and OpenAlex's response has one.
  */
  lemma DefaultProvidersPropagate(fetch: string -> Response, document: seq<Jats.Element>, doi: string)
    ensures var g := Generate(DefaultProviders(fetch), document, doi);
      (g.result.Err? && g.result.error.Propagated?) <==>
        && Doi.Validate(doi).Ok?
        && var crossref := fetch(Crossref.RequestUrl(Doi.Validate(doi).value));
           var openAlex := fetch(OpenAlex.RequestUrl(Doi.Validate(doi).value));
           || Crossref.IllTyped(crossref)
           || (!Crossref.CarriesCitation(crossref) && OpenAlex.IllTyped(openAlex))
  {
    if Doi.Validate(doi).Ok? {
      CrossrefThenOpenAlex(fetch, Doi.Validate(doi).value);
    }
  }
}
