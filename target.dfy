/**
 * The rest of what the command settles before it scrapes: the search
 * address built from the query, and the options handed to the browser
 * launcher and to the scraper.
 */
module Target {
  import opened Wrappers
  import opened JsValues
  import opened Unicode
  import opened UriEncoding
  import opened Options

  /** Google's image-search address, waiting for its query. */
  const SearchPrefix: Str := Ascii("https://www.google.com/search?tbm=isch&q=")

  const Comma: CodeUnit := ',' as int

  /**
   * The string encodeURIComponent works on: its first step, ToString, leaves
   * a given query as it is and turns the command-line word array into its
   * words joined by commas (Array.prototype.toString), with no space, so that
   * comma-free words can be told apart again.
   */
  function QueryText(q: Query): (r: Str)
    ensures q.Given? ==> r == q.text
    ensures q.Words? && |q.words| >= 1 && FreeOf(q.words, Comma) ==> Split(r, Comma) == q.words
  {
    match q
    case Given(s) => s
    case Words(w) =>
      assert |w| >= 1 && FreeOf(w, Comma) ==> Split(Join(w, Comma), Comma) == w by {
        if |w| >= 1 && FreeOf(w, Comma) {
          SplitJoin(w, Comma);
        }
      }
      Join(w, Comma)
  }

  /**
   * The address the command scrapes. It throws, as encodeURIComponent does,
   * exactly when the query text holds an unpaired surrogate; otherwise it is
   * the prefix followed by an encoding that decodes back to the query text.
   */
  function TargetUrl(q: Query): (r: Result<Str, UriError>)
    ensures r.Err? <==> !WellFormed(QueryText(q))
    ensures r.Ok? ==> EncodeUriComponent(QueryText(q)).Ok? && r.value == SearchPrefix + EncodeUriComponent(QueryText(q)).value
    ensures r.Ok? ==> |SearchPrefix| <= |r.value| && r.value[..|SearchPrefix|] == SearchPrefix
    ensures r.Ok? ==> IsEncoded(r.value[|SearchPrefix|..])
    ensures r.Ok? ==> Decode(r.value[|SearchPrefix|..]) == Some(QueryText(q))
  {
    EncodeFailsIffIllFormed(QueryText(q));
    match EncodeUriComponent(QueryText(q))
    case Err(e) => Err(e)
    case Ok(encoded) =>
      EncodeIsEncoded(QueryText(q));
      DecodeEncode(QueryText(q));
      assert (SearchPrefix + encoded)[|SearchPrefix|..] == encoded;
      Ok(SearchPrefix + encoded)
  }

  /** A query of unreserved characters reaches the address as it is: "cats" gives ...&q=cats. */
  lemma UnreservedQueryVerbatim(q: Query)
    requires forall m :: 0 <= m < |QueryText(q)| ==> IsUnreserved(QueryText(q)[m])
    ensures TargetUrl(q) == Ok(SearchPrefix + QueryText(q))
  {
    EncodeUnreservedIdentity(QueryText(q));
  }

  /**
   * Words from the command line reach the search joined by "%2C", the
   * escaped comma, not by spaces.
   */
  lemma WordsJoinedByEscapedComma(words: seq<Str>)
    requires |words| >= 2 && WellFormed(words[0])
    ensures EncodeUriComponent(words[0]).Ok?
    ensures EncodeUriComponent(QueryText(Words(words))).Err? <==>
            EncodeUriComponent(QueryText(Words(words[1..]))).Err?
    ensures EncodeUriComponent(QueryText(Words(words[1..]))).Ok? ==>
              EncodeUriComponent(QueryText(Words(words))).value ==
              EncodeUriComponent(words[0]).value + Ascii("%2C") + EncodeUriComponent(QueryText(Words(words[1..]))).value
  {
    var tail := Join(words[1..], Comma);
    var b := [Comma] + tail;
    assert QueryText(Words(words)) == words[0] + b;
    EncodeFailsIffIllFormed(words[0]);
    EscapedComma(tail);
    EncodeConcatThrows(words[0], b);
    if EncodeUriComponent(tail).Ok? {
      var rest := EncodeUriComponent(tail).value;
      EncodeConcat(words[0], b);
      assert EncodeUriComponent(words[0]).value + (Ascii("%2C") + rest) ==
             EncodeUriComponent(words[0]).value + Ascii("%2C") + rest;
    }
  }

  /** A comma in front of a string is written "%2C" and changes nothing else. */
  lemma EscapedComma(tail: Str)
    ensures EncodeUriComponent([Comma] + tail).Err? <==> EncodeUriComponent(tail).Err?
    ensures EncodeUriComponent(tail).Ok? ==>
              EncodeUriComponent([Comma] + tail) == Ok(Ascii("%2C") + EncodeUriComponent(tail).value)
  {
    var b := [Comma] + tail;
    assert b[0] == Comma && b[1..] == tail;
    assert CodePointAt(b, 0) == CodePointRecord(Comma, 1, false);
    assert Utf8(Comma) == [Comma];
    assert EscapeAll([Comma]) == Escape(Comma);
    assert Escape(Comma) == Ascii("%2C");
  }

  /** What the browser launcher is asked for: a visible window, a 400 ms delay, 1024 by 800 pixels. */
  datatype LaunchOptions = LaunchOptions(headless: bool, delay: nat, width: nat, height: nat)

  const Launch: LaunchOptions := LaunchOptions(false, 400, 1024, 800)

  /** What the scraper is asked for: the images under div#search, scrolling for more, up to count. */
  datatype ScrapeOptions = ScrapeOptions(selector: Str, infiniteScroll: bool, count: JsValue)

  const ImageSelector: Str := Ascii("div#search img")

  /** The two ways the command ends before scraping. */
  datatype Failure =
    | Usage      // showHelp: no query at all, before any browser is launched
    | UriThrown  // encodeURIComponent threw after the launch; the error is logged and the browser closed

  /** What the command has in hand when it calls the scraper. */
  datatype Plan = Plan(request: Request, launch: LaunchOptions, targetUrl: Str, scrape: ScrapeOptions)

  /**
   * The command up to the scrape: resolve the inputs, launch the browser,
   * build the address and the scraper's options.
   */
  function Prepare(query: Option<Str>, options: CallOptions, cli: Cli, pascalCase: Query -> Str): (r: Result<Plan, Failure>)
    ensures r == Err(Usage) <==> QueryMissing(query, cli)
    ensures r == Err(UriThrown) <==>
              !QueryMissing(query, cli) && !WellFormed(QueryText(Resolve(query, options, cli, pascalCase).value.query))
    ensures r.Ok? ==> Resolve(query, options, cli, pascalCase) == Ok(r.value.request)
    ensures r.Ok? ==> r.value.launch == LaunchOptions(false, 400, 1024, 800)
    ensures r.Ok? ==> TargetUrl(r.value.request.query) == Ok(r.value.targetUrl)
    ensures r.Ok? ==> |SearchPrefix| <= |r.value.targetUrl| && r.value.targetUrl[..|SearchPrefix|] == SearchPrefix
    ensures r.Ok? ==> IsEncoded(r.value.targetUrl[|SearchPrefix|..])
    ensures r.Ok? ==> Decode(r.value.targetUrl[|SearchPrefix|..]) == Some(QueryText(r.value.request.query))
    ensures r.Ok? ==> r.value.scrape == ScrapeOptions(ImageSelector, true, r.value.request.count)
    ensures r.Ok? ==> Truthy(r.value.scrape.count)
  {
    match Resolve(query, options, cli, pascalCase)
    case Err(_) => Err(Usage)
    case Ok(request) =>
      match TargetUrl(request.query)
      case Err(_) => Err(UriThrown)
      case Ok(url) => Ok(Plan(request, Launch, url, ScrapeOptions(ImageSelector, true, request.count)))
  }

  /**
   * The filters, the count and the label never reach the address: two calls
   * with the same query and command-line words scrape the same address.
   */
  lemma AddressIgnoresFilters(query: Option<Str>, input: seq<Str>,
                              options1: CallOptions, flags1: Flags, pascalCase1: Query -> Str,
                              options2: CallOptions, flags2: Flags, pascalCase2: Query -> Str)
    ensures Prepare(query, options1, Cli(input, flags1), pascalCase1).Ok? <==>
            Prepare(query, options2, Cli(input, flags2), pascalCase2).Ok?
    ensures Prepare(query, options1, Cli(input, flags1), pascalCase1).Ok? ==>
              Prepare(query, options1, Cli(input, flags1), pascalCase1).value.targetUrl ==
              Prepare(query, options2, Cli(input, flags2), pascalCase2).value.targetUrl
  {
  }
}
