/**
  `ConsoleApplication`: reads the command line (`parseArguments`), checks that
  there is something to do (`run`), resolves each DOI in turn through the
  citation service (`processDois`) and counts the outcome (`outputSummary`).
  The printing itself is not modelled.
*/
module Console {
  import opened Wrappers
  import opened Provider
  import Jats
  import Service

  /** The output formats `-f` accepts; `in_array(..., true)` compares strictly. */
  predicate IsFormat(f: string) {
    f == "individual" || f == "reflist" || f == "back"
  }

  const DefaultFormat: string := "individual"

  predicate IsVerboseFlag(a: string) { a == "-v" || a == "--verbose" }
  predicate IsFormatFlag(a: string) { a == "-f" || a == "--format" }
  predicate IsHelpFlag(a: string) { a == "-h" || a == "--help" }

  /** An argument the `switch` gives its own case; every other argument is a DOI. */
  predicate IsOption(a: string) {
    IsVerboseFlag(a) || IsFormatFlag(a) || IsHelpFlag(a)
  }

  /** The array `parseArguments` returns, or the `exit` code it stops the program with. */
  datatype ParseResult = Options(dois: seq<string>, verbose: bool, format: string) | Exit(code: int)

  /** The rest of the `for` loop from index i, with the values collected so far. */
  function ParseFrom(args: seq<string>, i: nat, dois: seq<string>, verbose: bool, format: string): ParseResult
    decreases |args| - i
  {
    if i >= |args| then Options(dois, verbose, format)
    else
      var arg := args[i];
      if IsVerboseFlag(arg) then ParseFrom(args, i + 1, dois, true, format)
      else if IsFormatFlag(arg) then
        if i + 1 < |args| then
          if IsFormat(args[i + 1]) then ParseFrom(args, i + 2, dois, verbose, args[i + 1]) else Exit(1)
        else ParseFrom(args, i + 1, dois, verbose, format)
      else if IsHelpFlag(arg) then Exit(0)
      else ParseFrom(args, i + 1, dois + [arg], verbose, format)
  }

  /** `parseArguments($args)`: from index 1, with no DOIs, verbose off and the default format. */
  function Parse(args: seq<string>): ParseResult {
    ParseFrom(args, 1, [], false, DefaultFormat)
  }

  /**
    The operands of a command line from index i on: every argument that is
    neither one of the flags nor the value right after a format flag.
  */
  function Operands(args: seq<string>, i: nat): seq<string>
    decreases |args| - i
  {
    if i >= |args| then []
    else if IsFormatFlag(args[i]) && i + 1 < |args| then Operands(args, i + 2)
    else if IsOption(args[i]) then Operands(args, i + 1)
    else [args[i]] + Operands(args, i + 1)
  }

  /** `xs` is `ys` with some elements left out, the rest in the same order. */
  predicate IsSubsequence(xs: seq<string>, ys: seq<string>)
    decreases |ys|
  {
    if xs == [] then true
    else if ys == [] then false
    else if xs[0] == ys[0] then IsSubsequence(xs[1..], ys[1..])
    else IsSubsequence(xs, ys[1..])
  }

  /** `zs` is `xs` and `ys` merged, each keeping its order: every element of `zs` comes from exactly one of them. */
  predicate Interleaving(xs: seq<string>, ys: seq<string>, zs: seq<string>)
    decreases |zs|
  {
    if zs == [] then xs == [] && ys == []
    else
      var z := zs[|zs| - 1];
      || (xs != [] && xs[|xs| - 1] == z && Interleaving(xs[..|xs| - 1], ys, zs[..|zs| - 1]))
      || (ys != [] && ys[|ys| - 1] == z && Interleaving(xs, ys[..|ys| - 1], zs[..|zs| - 1]))
  }

  /** The `getMessage()` of an exception `generateCitation` raises. */
  function Message(e: Service.CitationError): string {
    match e
    case InvalidDoi(invalid) => "Invalid DOI format: " + invalid.doi
    case NoCitationFound(message) => message
    case Propagated(message) => message
  }

  /**
    `$citations` (DOI and XML), `$errors` (DOI and message) and the builder's
    document after `processDois`, with the message of an exception that no
    `catch` handles when one ended the loop.
  */
  datatype Processing = Processing(
    citations: seq<(string, seq<Jats.Element>)>,
    errors: seq<(string, string)>,
    document: seq<Jats.Element>,
    uncaught: Option<string>)

  /**
    One pass of the `foreach`: a result goes to `$citations`, an
    InvalidDoiException or CitationException to `$errors` with its message, and
    any other exception escapes the loop.
  */
  function Record(p: Processing, doi: string, g: Service.Generated): Processing {
    match g.result
    case Ok(xml) => p.(citations := p.citations + [(doi, xml)], document := g.document)
    case Err(Propagated(message)) => p.(document := g.document, uncaught := Some(message))
    case Err(e) => p.(errors := p.errors + [(doi, Message(e))], document := g.document)
  }

  /** A `generateCitation` call as a function of the builder's document and the DOI. */
  type Generator = (seq<Jats.Element>, string) -> Service.Generated

  /** `generateCitation` of a service with the given providers. */
  function ServiceGenerator(providers: seq<Service.ProviderCall>): Generator {
    (document, doi) => Service.Generate(providers, document, doi)
  }

  /**
    The DOIs are resolved in order, each call building on the document the
    previous one left, until an exception escapes.
  */
  function ProcessSpec(generate: Generator, document: seq<Jats.Element>, dois: seq<string>): Processing
    decreases |dois|
  {
    if dois == [] then Processing([], [], document, None)
    else
      var p := ProcessSpec(generate, document, dois[..|dois| - 1]);
      if p.uncaught.Some? then p
      else Record(p, dois[|dois| - 1], generate(p.document, dois[|dois| - 1]))
  }

  /** The DOI column of the citation list or of the error list. */
  function DoiColumn<T>(rows: seq<(string, T)>): (r: seq<string>)
    ensures |r| == |rows| && forall i :: 0 <= i < |r| ==> r[i] == rows[i].0
  {
    seq(|rows|, i requires 0 <= i < |rows| => rows[i].0)
  }

  /** The three numbers `outputSummary` prints. */
  datatype SummaryCounts = SummaryCounts(total: nat, successful: nat, failed: nat)

  /** `outputSummary`: the total is the number of citations plus the number of errors. */
  function Summary(citations: seq<(string, seq<Jats.Element>)>, errors: seq<(string, string)>): (s: SummaryCounts)
    ensures s.successful == |citations| && s.failed == |errors|
    ensures s.total == s.successful + s.failed
  {
    SummaryCounts(|citations| + |errors|, |citations|, |errors|)
  }

  /**
    What `run` ends with: an `exit` code, the two lists handed to the output, or
    an exception no `catch` handles, with which PHP ends the script before any
    output.
  */
  datatype RunResult =
    | Exited(code: int)
    | Processed(citations: seq<(string, seq<Jats.Element>)>, errors: seq<(string, string)>)
    | Uncaught(message: string)

  /** `ConsoleApplication`, with the network fetch its providers use. */
  class ConsoleApplication {
    var verbose: bool
    var outputFormat: string
    const citationService: Service.CitationService

    /** `new ConsoleApplication()`: `initializeService` configures Crossref then OpenAlex and a new builder. */
    constructor(fetch: string -> Response)
      ensures !verbose && outputFormat == DefaultFormat
      ensures fresh(citationService) && fresh(citationService.xmlBuilder)
      ensures citationService.providers == Service.DefaultProviders(fetch)
      ensures citationService.xmlBuilder.document == []
    {
      verbose := false;
      outputFormat := DefaultFormat;
      var xmlBuilder := new Jats.JatsXmlBuilder();
      citationService := new Service.CitationService(Service.DefaultProviders(fetch), xmlBuilder);
    }

    /** `parseArguments($args)`: the `for` loop, `++$i` skipping the value of `-f`. */
    method ParseArguments(args: seq<string>) returns (r: ParseResult)
      ensures r == Parse(args)
    {
      var dois: seq<string> := [];
      var verbose := false;
      var format := DefaultFormat;
      var i := 1;
      while i < |args|
        invariant 1 <= i
        invariant Parse(args) == ParseFrom(args, i, dois, verbose, format)
        decreases |args| - i
      {
        var arg := args[i];
        if arg == "-v" || arg == "--verbose" {
          verbose := true;
        } else if arg == "-f" || arg == "--format" {
          if i + 1 < |args| {
            i := i + 1;
            format := args[i];
            if !IsFormat(format) {
              return Exit(1);
            }
          }
        } else if arg == "-h" || arg == "--help" {
          return Exit(0);
        } else {
          dois := dois + [arg];
        }
        i := i + 1;
      }
      return Options(dois, verbose, format);
    }

    /**
      One pass of the `foreach` in `processDois`: the DOI through
      `generateCitation`, its result or caught exception added to the lists.
    */
    method ProcessOne(citations: seq<(string, seq<Jats.Element>)>, errors: seq<(string, string)>, doi: string)
      returns (p: Processing)
      modifies citationService.xmlBuilder
      ensures p == Record(Processing(citations, errors, old(citationService.xmlBuilder.document), None), doi,
        Service.Generate(citationService.providers, old(citationService.xmlBuilder.document), doi))
      ensures citationService.xmlBuilder.document == p.document
    {
      var citation, consulted := citationService.GenerateCitation(doi);
      ghost var g := Service.Generate(citationService.providers, old(citationService.xmlBuilder.document), doi);
      assert citation == g.result && citationService.xmlBuilder.document == g.document;
      var document := citationService.xmlBuilder.document;
      if citation.Ok? {
        p := Processing(citations + [(doi, citation.value)], errors, document, None);
      } else if citation.error.Propagated? {
        p := Processing(citations, errors, document, Some(citation.error.message));
      } else {
        p := Processing(citations, errors + [(doi, Message(citation.error))], document, None);
      }
    }

    /**
      `processDois($dois)`: each DOI in order through `generateCitation`; a
      result goes to `$citations`, an InvalidDoiException or CitationException
      to `$errors` with its message, and any other exception leaves the loop.
    */
    method ProcessDois(dois: seq<string>) returns (citations: seq<(string, seq<Jats.Element>)>, errors: seq<(string, string)>, uncaught: Option<string>)
      modifies citationService.xmlBuilder
      ensures var p := ProcessSpec(ServiceGenerator(citationService.providers), old(citationService.xmlBuilder.document), dois);
        && citations == p.citations && errors == p.errors && uncaught == p.uncaught
        && citationService.xmlBuilder.document == p.document
    {
      citations := [];
      errors := [];
      uncaught := None;
      ghost var generate := ServiceGenerator(citationService.providers);
      ghost var start := citationService.xmlBuilder.document;
      var i := 0;
      while i < |dois|
        invariant 0 <= i <= |dois|
        invariant var p := ProcessSpec(generate, start, dois[..i]);
          && citations == p.citations && errors == p.errors && p.uncaught.None?
          && citationService.xmlBuilder.document == p.document
      {
        ProcessStep(generate, start, dois, i);
        var p := ProcessOne(citations, errors, dois[i]);
        assert generate(citationService.xmlBuilder.document, dois[i]) == Service.Generate(citationService.providers, citationService.xmlBuilder.document, dois[i]);
        if p.uncaught.Some? {
          uncaught := p.uncaught;
          UncaughtStops(generate, start, dois, i + 1);
          return;
        }
        citations, errors := p.citations, p.errors;
        i := i + 1;
      }
      assert dois[..|dois|] == dois;
    }

    /**
      `run($args)`: fewer than two arguments, a help or format exit from the
      parser, or no DOIs end the program; otherwise the options are stored and
      the DOIs processed, and an exception that escapes `processDois` escapes
      its `catch` too.
    */
    method Run(args: seq<string>) returns (r: RunResult)
      modifies this, citationService.xmlBuilder
      ensures |args| < 2 ==> r == Exited(1) && unchanged(this) && unchanged(citationService.xmlBuilder)
      ensures |args| >= 2 && Parse(args).Exit? ==>
        r == Exited(Parse(args).code) && unchanged(this) && unchanged(citationService.xmlBuilder)
      ensures |args| >= 2 && Parse(args).Options? && Parse(args).dois == [] ==>
        r == Exited(1) && unchanged(this) && unchanged(citationService.xmlBuilder)
      ensures |args| >= 2 && Parse(args).Options? && Parse(args).dois != [] ==>
        var p := ProcessSpec(ServiceGenerator(citationService.providers), old(citationService.xmlBuilder.document), Parse(args).dois);
        && verbose == Parse(args).verbose && outputFormat == Parse(args).format
        && r == (if p.uncaught.Some? then Uncaught(p.uncaught.value) else Processed(p.citations, p.errors))
        && citationService.xmlBuilder.document == p.document
    {
      if |args| < 2 {
        return Exited(1);
      }
      var options := ParseArguments(args);
      if options.Exit? {
        return Exited(options.code);
      }
      var dois := options.dois;
      if dois == [] {
        return Exited(1);
      }
      verbose := options.verbose;
      outputFormat := options.format;
      var citations, errors, uncaught := ProcessDois(dois);
      if uncaught.Some? {
        return Uncaught(uncaught.value);
      }
      return Processed(citations, errors);
    }
  }

  // ---------------------------------------------------------------- parsing

  /** Arguments with no option among them are collected as they are. */
  lemma {:induction false} PlainRun(args: seq<string>, i: nat, j: nat, dois: seq<string>, verbose: bool, format: string)
    requires i <= j <= |args|
    requires forall k :: i <= k < j ==> !IsOption(args[k])
    ensures ParseFrom(args, i, dois, verbose, format) == ParseFrom(args, j, dois + args[i..j], verbose, format)
    decreases j - i
  {
    if i < j {
      PlainRun(args, i + 1, j, dois + [args[i]], verbose, format);
      assert dois + [args[i]] + args[i + 1..j] == dois + args[i..j];
    } else {
      assert dois + args[i..j] == dois;
    }
  }

  /** Without options every argument after the program name is a DOI, and the defaults stay. */
  lemma PlainArguments(args: seq<string>)
    requires |args| >= 1
    requires forall k :: 1 <= k < |args| ==> !IsOption(args[k])
    ensures Parse(args) == Options(args[1..], false, DefaultFormat)
  {
    PlainRun(args, 1, |args|, [], false, DefaultFormat);
    assert [] + args[1..|args|] == args[1..];
  }

  /** `args[0]` is never read: any program name gives the same result. */
  lemma {:induction false} ParseFromIgnoresHead(a: seq<string>, b: seq<string>, i: nat, dois: seq<string>, verbose: bool, format: string)
    requires |a| == |b| && i >= 1
    requires forall k :: 1 <= k < |a| ==> a[k] == b[k]
    ensures ParseFrom(a, i, dois, verbose, format) == ParseFrom(b, i, dois, verbose, format)
    decreases |a| - i
  {
    if i < |a| {
      ParseFromIgnoresHead(a, b, i + 1, dois, true, format);
      ParseFromIgnoresHead(a, b, i + 1, dois, verbose, format);
      ParseFromIgnoresHead(a, b, i + 1, dois + [a[i]], verbose, format);
      if i + 1 < |a| {
        ParseFromIgnoresHead(a, b, i + 2, dois, verbose, a[i + 1]);
      }
    }
  }

  lemma ProgramNameIgnored(args: seq<string>, name: string)
    requires |args| >= 1
    ensures Parse([name] + args[1..]) == Parse(args)
  {
    ParseFromIgnoresHead([name] + args[1..], args, 1, [], false, DefaultFormat);
  }

  /** A help flag with no help or format flag before it stops the rest of the loop with exit code 0. */
  lemma {:induction false} HelpExitsFrom(args: seq<string>, i: nat, k: nat, dois: seq<string>, verbose: bool, format: string)
    requires i <= k < |args| && IsHelpFlag(args[k])
    requires forall j :: i <= j < k ==> !IsHelpFlag(args[j]) && !IsFormatFlag(args[j])
    ensures ParseFrom(args, i, dois, verbose, format) == Exit(0)
    decreases k - i
  {
    if i < k {
      if IsVerboseFlag(args[i]) {
        HelpExitsFrom(args, i + 1, k, dois, true, format);
      } else {
        HelpExitsFrom(args, i + 1, k, dois + [args[i]], verbose, format);
      }
    }
  }

  /**
    A help flag reached before any other help or format flag stops with exit
    code 0, whatever DOIs and verbose flags come before it.
  */
  lemma HelpExits(args: seq<string>, k: nat)
    requires 1 <= k < |args| && IsHelpFlag(args[k])
    requires forall j :: 1 <= j < k ==> !IsHelpFlag(args[j]) && !IsFormatFlag(args[j])
    ensures Parse(args) == Exit(0)
  {
    HelpExitsFrom(args, 1, k, [], false, DefaultFormat);
  }

  /** `-v -h`: help after a verbose flag still prints the help and exits with 0. */
  lemma VerboseThenHelp(name: string)
    ensures Parse([name, "-v", "-h"]) == Exit(0)
  {
    HelpExits([name, "-v", "-h"], 2);
  }

  /**
    A format flag reached before any other option takes the next argument:
    a known format is kept and parsing goes on after it, any other value exits with 1.
  */
  lemma FormatTakesNext(args: seq<string>, k: nat)
    requires 1 <= k && k + 1 < |args| && IsFormatFlag(args[k])
    requires forall j :: 1 <= j < k ==> !IsOption(args[j])
    ensures Parse(args) ==
      if IsFormat(args[k + 1]) then ParseFrom(args, k + 2, args[1..k], false, args[k + 1]) else Exit(1)
  {
    PlainRun(args, 1, k, [], false, DefaultFormat);
    assert [] + args[1..k] == args[1..k];
  }

  /** A format flag with nothing after it is ignored. */
  lemma TrailingFormatIgnored(args: seq<string>, flag: string)
    requires |args| >= 1 && IsFormatFlag(flag)
    requires forall k :: 1 <= k < |args| ==> !IsOption(args[k])
    ensures Parse(args + [flag]) == Options(args[1..], false, DefaultFormat)
  {
    var all := args + [flag];
    PlainRun(all, 1, |args|, [], false, DefaultFormat);
    assert [] + all[1..|args|] == args[1..];
  }

  /** Every format a parse ends with is one of the three; the default is one of them. */
  lemma {:induction false} ParseFromFormat(args: seq<string>, i: nat, dois: seq<string>, verbose: bool, format: string)
    requires IsFormat(format)
    ensures ParseFrom(args, i, dois, verbose, format).Options? ==> IsFormat(ParseFrom(args, i, dois, verbose, format).format)
    decreases |args| - i
  {
    if i < |args| {
      ParseFromFormat(args, i + 1, dois, true, format);
      ParseFromFormat(args, i + 1, dois, verbose, format);
      ParseFromFormat(args, i + 1, dois + [args[i]], verbose, format);
      if i + 1 < |args| && IsFormat(args[i + 1]) {
        ParseFromFormat(args, i + 2, dois, verbose, args[i + 1]);
      }
    }
  }

  /** A successful parse has verbose on exactly when a verbose flag is among the arguments. */
  lemma {:induction false} ParseFromVerbose(args: seq<string>, i: nat, dois: seq<string>, verbose: bool, format: string)
    ensures var r := ParseFrom(args, i, dois, verbose, format);
      r.Options? ==> (r.verbose <==> verbose || exists k :: i <= k < |args| && IsVerboseFlag(args[k]))
    decreases |args| - i
  {
    if i < |args| {
      var arg := args[i];
      if IsVerboseFlag(arg) {
        ParseFromVerbose(args, i + 1, dois, true, format);
      } else if IsFormatFlag(arg) {
        if i + 1 < |args| {
          if IsFormat(args[i + 1]) {
            ParseFromVerbose(args, i + 2, dois, verbose, args[i + 1]);
            assert !IsVerboseFlag(args[i + 1]);
            assert forall k :: i <= k < |args| && IsVerboseFlag(args[k]) ==> i + 2 <= k;
          }
        } else {
          ParseFromVerbose(args, i + 1, dois, verbose, format);
        }
      } else if !IsHelpFlag(arg) {
        ParseFromVerbose(args, i + 1, dois + [arg], verbose, format);
      }
    }
  }

  lemma SubsequenceSkip(xs: seq<string>, y: string, ys: seq<string>)
    requires IsSubsequence(xs, ys)
    ensures IsSubsequence(xs, [y] + ys)
    decreases |ys|, 1
  {
    if xs != [] && xs[0] == y {
      SubsequenceTail(xs, ys);
      assert ([y] + ys)[1..] == ys;
    } else {
      assert ([y] + ys)[1..] == ys;
    }
  }

  lemma {:induction false} SubsequenceTail(xs: seq<string>, ys: seq<string>)
    requires xs != [] && IsSubsequence(xs, ys)
    ensures IsSubsequence(xs[1..], ys)
    decreases |ys|, 0
  {
    if xs[0] == ys[0] {
      if xs[1..] != [] {
        SubsequenceSkip(xs[1..], ys[0], ys[1..]);
        assert [ys[0]] + ys[1..] == ys;
      }
    } else {
      SubsequenceTail(xs, ys[1..]);
      if xs[1..] != [] {
        SubsequenceSkip(xs[1..], ys[0], ys[1..]);
        assert [ys[0]] + ys[1..] == ys;
      }
    }
  }

  /**
    The DOIs a successful parse collects are the arguments from index i on
    with some left out, in their input order, and none of them is an option.
  */
  lemma {:induction false} ParseFromDois(args: seq<string>, i: nat, dois: seq<string>, verbose: bool, format: string)
    requires i <= |args|
    ensures var r := ParseFrom(args, i, dois, verbose, format);
      r.Options? ==>
        && |r.dois| >= |dois| && r.dois[..|dois|] == dois
        && IsSubsequence(r.dois[|dois|..], args[i..])
        && forall d :: d in r.dois[|dois|..] ==> !IsOption(d)
    decreases |args| - i
  {
    var r := ParseFrom(args, i, dois, verbose, format);
    if i == |args| {
      assert r.dois[|dois|..] == [];
    } else if r.Options? {
      var arg := args[i];
      assert args[i..] == [arg] + args[i + 1..];
      if IsVerboseFlag(arg) {
        ParseFromDois(args, i + 1, dois, true, format);
        SubsequenceSkip(r.dois[|dois|..], arg, args[i + 1..]);
      } else if IsFormatFlag(arg) {
        if i + 1 < |args| {
          ParseFromDois(args, i + 2, dois, verbose, args[i + 1]);
          assert args[i + 1..] == [args[i + 1]] + args[i + 2..];
          SubsequenceSkip(r.dois[|dois|..], args[i + 1], args[i + 2..]);
          SubsequenceSkip(r.dois[|dois|..], arg, args[i + 1..]);
        } else {
          ParseFromDois(args, i + 1, dois, verbose, format);
          SubsequenceSkip(r.dois[|dois|..], arg, args[i + 1..]);
        }
      } else {
        var more := dois + [arg];
        ParseFromDois(args, i + 1, more, verbose, format);
        var ds := r.dois;
        assert ds[..|more|] == more;
        assert ds[|dois|] == more[|dois|] == arg;
        assert ds[|dois|..] == [ds[|dois|]] + ds[|more|..];
        assert ds[..|dois|] == more[..|dois|];
      }
    }
  }

  /** A successful parse collects exactly the operands, in order, after the DOIs it started with. */
  lemma {:induction false} ParseFromOperands(args: seq<string>, i: nat, dois: seq<string>, verbose: bool, format: string)
    ensures var r := ParseFrom(args, i, dois, verbose, format);
      r.Options? ==> r.dois == dois + Operands(args, i)
    decreases |args| - i
  {
    if i < |args| {
      var arg := args[i];
      if IsVerboseFlag(arg) {
        ParseFromOperands(args, i + 1, dois, true, format);
      } else if IsFormatFlag(arg) {
        if i + 1 < |args| {
          ParseFromOperands(args, i + 2, dois, verbose, args[i + 1]);
        } else {
          ParseFromOperands(args, i + 1, dois, verbose, format);
        }
      } else if !IsHelpFlag(arg) {
        ParseFromOperands(args, i + 1, dois + [arg], verbose, format);
        assert dois + [arg] + Operands(args, i + 1) == dois + ([arg] + Operands(args, i + 1));
      }
    } else {
      assert dois + [] == dois;
    }
  }

  /** An exit from the parser is code 0 after a help flag, or code 1 after a format flag with an unknown value. */
  lemma {:induction false} ParseFromExit(args: seq<string>, i: nat, dois: seq<string>, verbose: bool, format: string)
    ensures var r := ParseFrom(args, i, dois, verbose, format);
      r.Exit? ==>
        || (r.code == 0 && exists k :: i <= k < |args| && IsHelpFlag(args[k]))
        || (r.code == 1 && exists k :: i <= k && k + 1 < |args| && IsFormatFlag(args[k]) && !IsFormat(args[k + 1]))
    decreases |args| - i
  {
    if i < |args| {
      ParseFromExit(args, i + 1, dois, true, format);
      ParseFromExit(args, i + 1, dois, verbose, format);
      ParseFromExit(args, i + 1, dois + [args[i]], verbose, format);
      if i + 1 < |args| {
        ParseFromExit(args, i + 2, dois, verbose, args[i + 1]);
      }
    }
  }

  /** What any parse of a command line guarantees. */
  lemma ParseGuarantees(args: seq<string>)
    ensures var r := Parse(args);
      && (r.Options? ==> IsFormat(r.format))
      && (r.Options? ==> (r.verbose <==> exists k :: 1 <= k < |args| && IsVerboseFlag(args[k])))
      && (r.Options? ==> r.dois == Operands(args, 1))
      && (r.Options? && |args| >= 1 ==> IsSubsequence(r.dois, args[1..]) && forall d :: d in r.dois ==> !IsOption(d))
      && (r.Exit? ==> r.code == 0 || r.code == 1)
      && (r == Exit(0) ==> exists k :: 1 <= k < |args| && IsHelpFlag(args[k]))
      && (r == Exit(1) ==> exists k :: 1 <= k && k + 1 < |args| && IsFormatFlag(args[k]) && !IsFormat(args[k + 1]))
  {
    ParseFromFormat(args, 1, [], false, DefaultFormat);
    ParseFromVerbose(args, 1, [], false, DefaultFormat);
    ParseFromExit(args, 1, [], false, DefaultFormat);
    ParseFromOperands(args, 1, [], false, DefaultFormat);
    assert [] + Operands(args, 1) == Operands(args, 1);
    if |args| >= 1 {
      ParseFromDois(args, 1, [], false, DefaultFormat);
      var r := Parse(args);
      if r.Options? {
        assert r.dois[0..] == r.dois;
      }
    }
  }

  // ---------------------------------------------------------------- processing

  lemma {:induction false} InterleavingLength(xs: seq<string>, ys: seq<string>, zs: seq<string>)
    requires Interleaving(xs, ys, zs)
    ensures |xs| + |ys| == |zs|
    decreases |zs|
  {
    if zs != [] {
      var z := zs[|zs| - 1];
      if xs != [] && xs[|xs| - 1] == z && Interleaving(xs[..|xs| - 1], ys, zs[..|zs| - 1]) {
        InterleavingLength(xs[..|xs| - 1], ys, zs[..|zs| - 1]);
      } else {
        InterleavingLength(xs, ys[..|ys| - 1], zs[..|zs| - 1]);
      }
    }
  }

  lemma InterleavingLeft(xs: seq<string>, ys: seq<string>, zs: seq<string>, z: string)
    requires Interleaving(xs, ys, zs)
    ensures Interleaving(xs + [z], ys, zs + [z])
  {
    assert (xs + [z])[..|xs|] == xs;
    assert (zs + [z])[..|zs|] == zs;
  }

  lemma InterleavingRight(xs: seq<string>, ys: seq<string>, zs: seq<string>, z: string)
    requires Interleaving(xs, ys, zs)
    ensures Interleaving(xs, ys + [z], zs + [z])
  {
    assert (ys + [z])[..|ys|] == ys;
    assert (zs + [z])[..|zs|] == zs;
  }

  /** One more DOI adds one entry, under that DOI, to exactly one of the two lists. */
  lemma RecordStep(q: Processing, doi: string, g: Service.Generated)
    ensures var p := Record(q, doi, g);
      || (DoiColumn(p.citations) == DoiColumn(q.citations) + [doi] && p.errors == q.errors && p.uncaught == q.uncaught)
      || (p.citations == q.citations && DoiColumn(p.errors) == DoiColumn(q.errors) + [doi] && p.uncaught == q.uncaught)
      || (p.citations == q.citations && p.errors == q.errors && p.uncaught.Some?)
  {
  }

  /**
    A DOI recorded after a partition of `done` extends it to `done + [doi]`,
    unless an exception escapes; either way the lists partition the prefix of
    `done + [doi]` they cover.
  */
  lemma PartitionStep(q: Processing, doi: string, g: Service.Generated, done: seq<string>, dois: seq<string>)
    requires dois == done + [doi]
    requires q.uncaught.None? && |q.citations| + |q.errors| == |done|
    requires Interleaving(DoiColumn(q.citations), DoiColumn(q.errors), done)
    ensures var p := Record(q, doi, g);
      var n := |p.citations| + |p.errors|;
      && n <= |dois|
      && Interleaving(DoiColumn(p.citations), DoiColumn(p.errors), dois[..n])
      && (p.uncaught.None? <==> n == |dois|)
  {
    RecordStep(q, doi, g);
    var p := Record(q, doi, g);
    var cs, es := DoiColumn(q.citations), DoiColumn(q.errors);
    if p.uncaught.None? {
      assert dois[..|dois|] == dois;
      if p.errors == q.errors {
        InterleavingLeft(cs, es, done, doi);
      } else {
        InterleavingRight(cs, es, done, doi);
      }
    } else {
      assert dois[..|done|] == done;
    }
  }

  /** Processing one more DOI of the input. */
  lemma ProcessStep(generate: Generator, document: seq<Jats.Element>, dois: seq<string>, i: nat)
    requires i < |dois| && ProcessSpec(generate, document, dois[..i]).uncaught.None?
    ensures var p := ProcessSpec(generate, document, dois[..i]);
      ProcessSpec(generate, document, dois[..i + 1]) == Record(p, dois[i], generate(p.document, dois[i]))
  {
    assert dois[..i + 1][..i] == dois[..i];
  }

  /** Once an exception has escaped, later DOIs are not processed. */
  lemma {:induction false} UncaughtStops(generate: Generator, document: seq<Jats.Element>, dois: seq<string>, k: nat)
    requires k <= |dois| && ProcessSpec(generate, document, dois[..k]).uncaught.Some?
    ensures ProcessSpec(generate, document, dois) == ProcessSpec(generate, document, dois[..k])
    decreases |dois|
  {
    if k < |dois| {
      var init := dois[..|dois| - 1];
      assert init[..k] == dois[..k];
      UncaughtStops(generate, document, init, k);
    } else {
      assert dois[..k] == dois;
    }
  }

  /**
    The DOIs processed are a prefix of the input: all of them unless an
    exception escaped. Each processed DOI lands in exactly one of the two lists,
    and each list keeps the input order.
  */
  lemma {:induction false} ProcessPartition(generate: Generator, document: seq<Jats.Element>, dois: seq<string>)
    ensures var p := ProcessSpec(generate, document, dois);
      var n := |p.citations| + |p.errors|;
      && n <= |dois|
      && Interleaving(DoiColumn(p.citations), DoiColumn(p.errors), dois[..n])
      && (p.uncaught.None? <==> n == |dois|)
    decreases |dois|
  {
    if dois != [] {
      var init := dois[..|dois| - 1];
      var doi := dois[|dois| - 1];
      var q := ProcessSpec(generate, document, init);
      ProcessPartition(generate, document, init);
      var nq := |q.citations| + |q.errors|;
      if q.uncaught.None? {
        assert init[..nq] == init;
        assert ProcessSpec(generate, document, dois) == Record(q, doi, generate(q.document, doi));
        PartitionStep(q, doi, generate(q.document, doi), init, dois);
      } else {
        assert ProcessSpec(generate, document, dois) == q;
        assert dois[..nq] == init[..nq];
      }
    } else {
      var p := ProcessSpec(generate, document, dois);
      assert DoiColumn(p.citations) == [] && DoiColumn(p.errors) == [];
      assert dois[..0] == [];
    }
  }

  /** The summary's total is the number of DOIs exactly when no exception escaped. */
  lemma SummaryTotalIsDoiCount(generate: Generator, document: seq<Jats.Element>, dois: seq<string>)
    ensures var p := ProcessSpec(generate, document, dois);
      Summary(p.citations, p.errors).total == |dois| <==> p.uncaught.None?
  {
    ProcessPartition(generate, document, dois);
  }
}
