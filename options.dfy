/**
 * How the google-images command settles its inputs: the query from its
 * argument or from the command line, and count, label and the six filters,
 * each by JavaScript's `||` from the caller's options, the parsed flags and
 * a fallback.
 */
module Options {
  import opened Wrappers
  import opened JsValues

  /**
   * The keys the command reads from its `options` argument; a missing key is
   * Undefined. `fileLabel` is the key `label` (a Dafny keyword).
   */
  datatype CallOptions = CallOptions(
    count: JsValue,
    fileLabel: JsValue,
    size: JsValue,
    color: JsValue,
    time: JsValue,
    kind: JsValue,
    region: JsValue,
    format: JsValue)

  /** The flags the command-line parser was told about (`--count` ... `--format`). */
  datatype Flags = Flags(
    count: JsValue,
    size: JsValue,
    color: JsValue,
    time: JsValue,
    kind: JsValue,
    region: JsValue,
    format: JsValue)

  /** The parsed command line: its positional words (the first names the command) and its flags. */
  datatype Cli = Cli(input: seq<Str>, flags: Flags)

  /** The query after resolution: the string the caller gave, or the words that follow the command name. */
  datatype Query = Given(text: Str) | Words(words: seq<Str>)

  /** Everything the command has settled before it opens a browser. */
  datatype Request = Request(
    query: Query,
    count: JsValue,
    fileLabel: JsValue,
    size: JsValue,
    color: JsValue,
    time: JsValue,
    kind: JsValue,
    region: JsValue,
    format: JsValue)

  /** The help text is shown and the command goes no further. */
  datatype UsageError = ShowHelp

  const DefaultCount: JsValue := Number(80)

  /** The query argument is truthy: given (not null) and not the empty string. */
  predicate HasQueryArgument(query: Option<Str>) {
    query.Some? && query.value != []
  }

  /** The condition handed to showHelp: no query argument and no word after the command name. */
  predicate QueryMissing(query: Option<Str>, cli: Cli) {
    !HasQueryArgument(query) && |cli.input| < 2
  }

  /**
   * The command's opening lines. `pascalCase` stands for the camelcase
   * library called with pascalCase set, which derives the default label.
   */
  function Resolve(query: Option<Str>, options: CallOptions, cli: Cli, pascalCase: Query -> Str): (r: Result<Request, UsageError>)
    ensures r.Err? <==> QueryMissing(query, cli)
    ensures r.Ok? && HasQueryArgument(query) ==> r.value.query == Given(query.value)
    ensures r.Ok? && !HasQueryArgument(query) ==> r.value.query == Words(cli.input[1..])
    // count: a truthy option, else a truthy flag, else 80
    ensures r.Ok? && Truthy(options.count) ==> r.value.count == options.count
    ensures r.Ok? && !Truthy(options.count) && Truthy(cli.flags.count) ==> r.value.count == cli.flags.count
    ensures r.Ok? && !Truthy(options.count) && !Truthy(cli.flags.count) ==> r.value.count == DefaultCount
    // label: a truthy option, else the query in PascalCase
    ensures r.Ok? && Truthy(options.fileLabel) ==> r.value.fileLabel == options.fileLabel
    ensures r.Ok? && !Truthy(options.fileLabel) ==> r.value.fileLabel == Text(pascalCase(r.value.query))
    // each filter: a truthy option, else whatever the flag holds
    ensures r.Ok? ==> r.value.size == (if Truthy(options.size) then options.size else cli.flags.size)
    ensures r.Ok? ==> r.value.color == (if Truthy(options.color) then options.color else cli.flags.color)
    ensures r.Ok? ==> r.value.time == (if Truthy(options.time) then options.time else cli.flags.time)
    ensures r.Ok? ==> r.value.kind == (if Truthy(options.kind) then options.kind else cli.flags.kind)
    ensures r.Ok? ==> r.value.region == (if Truthy(options.region) then options.region else cli.flags.region)
    ensures r.Ok? ==> r.value.format == (if Truthy(options.format) then options.format else cli.flags.format)
  {
    if QueryMissing(query, cli) then Err(ShowHelp)
    else
      var q := if HasQueryArgument(query) then Given(query.value) else Words(cli.input[1..]);
      Ok(Request(
        q,
        Or(Or(options.count, cli.flags.count), DefaultCount),
        Or(options.fileLabel, Text(pascalCase(q))),
        Or(options.size, cli.flags.size),
        Or(options.color, cli.flags.color),
        Or(options.time, cli.flags.time),
        Or(options.kind, cli.flags.kind),
        Or(options.region, cli.flags.region),
        Or(options.format, cli.flags.format)))
  }

  /**
   * The count that reaches the scraper is never falsy; a count of 0 (or an
   * empty string) falls through to the flag and then to 80.
   */
  lemma CountIsTruthy(query: Option<Str>, options: CallOptions, cli: Cli, pascalCase: Query -> Str)
    requires Resolve(query, options, cli, pascalCase).Ok?
    ensures Truthy(Resolve(query, options, cli, pascalCase).value.count)
    ensures options.count == Number(0) && !Truthy(cli.flags.count) ==>
              Resolve(query, options, cli, pascalCase).value.count == DefaultCount
  {
  }

  /**
   * A resolved query is never empty: a non-empty string, or at least one
   * word from the command line.
   */
  lemma QueryIsPresent(query: Option<Str>, options: CallOptions, cli: Cli, pascalCase: Query -> Str)
    requires Resolve(query, options, cli, pascalCase).Ok?
    ensures match Resolve(query, options, cli, pascalCase).value.query
            case Given(s) => s != []
            case Words(w) => |w| >= 1
  {
  }
}
