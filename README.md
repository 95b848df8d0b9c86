# google-images, modelled in Dafny

This project models the `google-images` command of a small command-line
toolkit. The command is given a search query. It settles its options,
launches a browser with a visible window, builds a Google Images search
address from the query, scrapes image tags from the result page, and pulls at
most one image address out of each scraped HTML fragment (none from a
fragment that does not match).

It models the three pure parts of that command and proves what they promise:

- **Option resolution** (`options.dfy`). The query comes from the argument or
  from the command-line words after the command name. When neither is there,
  the help text is shown (`Err(ShowHelp)`). `count`, `label` and the six
  filters are each settled by JavaScript's `||`.
  - `count` is the truthy option, else the truthy flag, else 80.
  - `label` is the truthy option, else the query in PascalCase.
  - Each filter is the truthy option, else whatever the flag holds.
  - JavaScript values and truthiness are in `js_values.dfy`.
- **The search address** (`target.dfy`, `uri_encoding.dfy`, `unicode.dfy`).
  The address is `https://www.google.com/search?tbm=isch&q=` followed by
  `encodeURIComponent(query)`.
  - `encodeURIComponent` is modelled as ECMA-262 defines it, over UTF-16
    code units: unreserved characters are copied, and every other code point
    becomes the `%XX` escapes of its UTF-8 octets. An unpaired surrogate
    throws `URIError`.
  - Proved: encoding throws exactly on ill-formed UTF-16. Otherwise it gives
    a string of unreserved characters and well-formed escapes that decodes
    back to the query.
  - A query taken from the command line is a word array. encodeURIComponent
    first converts its argument with ToString, which joins the array's words
    with commas, so the words reach the search
    joined by `%2C`, not by spaces. Splitting that text at commas gives the
    words back when none of them holds a comma.
- **URL extraction** (`extraction.dfy`). Each fragment is matched against
  `/"(https.*?images.*?)"/`, and the capture is kept when there is one.
  - The regular expression is given a reference meaning: the match with the
    leftmost start, then the shortest lazy groups, where `.` does not cross
    a line terminator.
  - A scanner is proved to find exactly that match.
  - The reduce is a left fold, and the loop that builds `imageUrls` is proved
    to compute it.
  - Proved about the output: order is kept, non-matching fragments are
    skipped, duplicates are kept, there is at most one URL per fragment, and
    each URL has the shape the pattern demands.

All source paths below are relative to the repository root.

## Model

| member | source | states |
|---|---|---|
| Options.Resolve | commands/google-images.js:56-66 | The help text is shown exactly when the query argument is falsy and the command line has fewer than two words. Otherwise the query is the argument when truthy, else the words after the command name. count is option, else flag, else 80. label is option, else the PascalCase query. Each filter is option when truthy, else flag. |
| Options.CountIsTruthy | commands/google-images.js:59 | The count handed to the scraper is never falsy; a count option of 0 with no truthy flag becomes 80. |
| Options.QueryIsPresent | commands/google-images.js:56-58 | After the help guard, the query is a non-empty string or at least one command-line word. |
| JsValues.Or | commands/google-images.js:58-66 | `a \|\| b` is `a` when `a` is truthy and `b` otherwise (so `0 \|\| undefined` is `undefined`), and it is truthy exactly when either operand is. |
| JsValues.Join | commands/google-images.js:58-79 | The word array as text: empty for no words, otherwise the first word leads, followed by the separator when more words come. |
| JsValues.SplitJoin | commands/google-images.js:58-79 | For one or more words, none holding the separator, splitting the joined text at the separator gives the words back. (No words join to the empty text, which splits into one empty word.) |
| Target.QueryText | commands/google-images.js:58-79 | The text encodeURIComponent's ToString makes of the query: a given string as it is; for command-line words (at least one word), text that splits at commas back into the words when none holds a comma. |
| Target.TargetUrl | commands/google-images.js:79 | The address throws exactly when the query text is ill-formed UTF-16. Otherwise it is the search prefix followed by encodeURIComponent of the query text: only unreserved characters and `%XX` escapes, which decode back to the query text. |
| Target.UnreservedQueryVerbatim | commands/google-images.js:79 | A query of unreserved characters reaches the address unchanged: `cats` gives `...&q=cats`. |
| Target.WordsJoinedByEscapedComma | commands/google-images.js:58-79 | For two or more command-line words whose first word is well-formed, the encoding of the joined text is the first word's encoding, then `%2C`, then the encoding of the remaining words' joined text; it throws exactly when the remaining words' joined text does. |
| Target.EscapedComma | commands/google-images.js:79 | A comma in front of a string is written `%2C`, and encoding the rest throws exactly when encoding the whole does. |
| Target.Prepare | commands/google-images.js:55-85 | The command up to the scrape call. A usage failure, before any launch, exactly when the query is missing. Otherwise a URIError exactly when the query text is ill-formed (recorded as `UriThrown`; the launch before it and the close at :108 are I/O and not modelled). Otherwise: the resolved request, the launch settings (visible window, delay 400, 1024 x 800), the address `TargetUrl` gives for the query (escaped, and decoding to the query), and scrape options `div#search img` with infinite scroll and the resolved (truthy) count. |
| Target.AddressIgnoresFilters | commands/google-images.js:59-79 | Two calls with the same query and command-line words give the same address, whatever count, label and filters they were given. |
| UriEncoding.EncodeUriComponent | commands/google-images.js:79 | encodeURIComponent, following ECMA-262's Encode. Its own contract states that the encoding is never shorter than the string; its meaning is stated by the lemmas in the next rows. |
| UriEncoding.EncodeFailsIffIllFormed | commands/google-images.js:79 | encodeURIComponent throws exactly when the string holds an unpaired surrogate. |
| UriEncoding.DecodeEncode | commands/google-images.js:79 | Decoding the encoding of a well-formed string gives the string back. |
| UriEncoding.EncodeIsEncoded | commands/google-images.js:79 | The encoding holds only unreserved characters and `%` followed by two upper-case hex digits. |
| UriEncoding.EncodeThroughUtf8 | commands/google-images.js:79 | Encoding succeeds exactly when the string's code points can be read, and the escapes then spell out the UTF-8 octets of those code points. |
| UriEncoding.EncodeUnreservedIdentity | commands/google-images.js:79 | A string of unreserved characters is its own encoding. |
| UriEncoding.EncodeConcat | commands/google-images.js:79 | The encoding of a concatenation is the concatenation of the encodings, when the first part is well-formed. |
| UriEncoding.EncodeConcatThrows | commands/google-images.js:79 | When the first part is well-formed, the concatenation throws exactly when the second part does (both directions). |
| UriEncoding.PercentDecodeEscapes | commands/google-images.js:79 | Percent-decoding the escapes of some octets, followed by a decodable tail, gives those octets followed by the tail's octets. |
| Unicode.CodePointAt | commands/google-images.js:79 | The code point at a position: a leading surrogate followed by a trailing one counts as two code units, any other unit as one and as its own code point; a surrogate outside such a pair is flagged as unpaired, and anything else yields a scalar value. The combined value of a pair is stated by Unicode.Utf16Read. |
| Unicode.Utf16Read | commands/google-images.js:79 | Reading the UTF-16 code units of a scalar value back, whatever follows, gives that value with its unit count (two for a surrogate pair), not flagged as unpaired. |
| Unicode.CodePointsWellFormed | commands/google-images.js:79 | A string's code points can be read exactly when it is well-formed UTF-16. |
| Unicode.FromCodePointsOfCodePoints | commands/google-images.js:79 | Writing a well-formed string's code points back as UTF-16 gives the string. |
| Unicode.Utf8RoundTrip | commands/google-images.js:79 | UTF-8 decoding inverts UTF-8 encoding on scalar values. |
| Unicode.DecodeOneCanonical | commands/google-images.js:79 | The UTF-8 decoder accepts only the canonical (shortest) octets of the code point it returns. |
| Extraction.FindClose | commands/google-images.js:93 | The first closing quote at or after a position on the same line, or none on that line. |
| Extraction.FindImages | commands/google-images.js:93 | The first occurrence of `images` at or after a position on the same line, or none. |
| Extraction.MatchAt | commands/google-images.js:93 | From a start position, the lazy choice: the first `images` after `"https`, then the first quote after it, with the same-line condition. |
| Extraction.FirstMatch | commands/google-images.js:93 | The match reported is the leftmost one with the shortest lazy groups, and there is none exactly when the fragment holds no match. |
| Extraction.Capture | commands/google-images.js:93-94 | The capture group of the match; nothing exactly when the fragment does not match. |
| Extraction.CaptureExample | commands/google-images.js:93-94 | The fragment `"https://images"` yields the capture `https://images`, without the quotes. |
| Extraction.CaptureInPlace | commands/google-images.js:93-94 | The capture sits between two quotes in the fragment, at the reported match. |
| Extraction.CaptureShape | commands/google-images.js:93-94 | A capture starts with `https`, contains `images` after it, and holds no line terminator. |
| Extraction.Extract | commands/google-images.js:91-97 | The reduce gives at most one URL per fragment. |
| Extraction.ExtractImageUrls | commands/google-images.js:78-97 | The loop that fills `imageUrls` from an empty list computes the reduce over all fragments. |
| Extraction.ExtractAppend | commands/google-images.js:92-96 | Extracting from two runs of fragments is extracting from each and concatenating. |
| Extraction.ExtractOne | commands/google-images.js:92-96 | One fragment gives its capture, or nothing when it does not match. |
| Extraction.SkipsNonMatching | commands/google-images.js:92-96 | A non-matching fragment drops out, and the fragments around it give what they would without it. |
| Extraction.NoDeduplication | commands/google-images.js:92-96 | The same matching fragment repeated n times gives its URL n times. |
| Extraction.Origins | commands/google-images.js:92-96 | The positions of the matching fragments, strictly increasing and in range. |
| Extraction.ExtractOrigins | commands/google-images.js:91-97 | The i-th URL is the capture of the i-th matching fragment, so fragment order is kept. |
| Extraction.OriginsComplete | commands/google-images.js:92-96 | Every matching fragment contributes, so nothing that matches is skipped. |
| Extraction.ExtractShapes | commands/google-images.js:91-97 | Every extracted URL has the address shape. |

## Left out

- Browser launch, scraping, closing, console logging and `process.exit` are
  I/O. The launch settings (`headless: false`, delay 400, 1024 x 800) and the
  scrape options are modelled only as values in the plan. A URIError thrown at
  line 79 is caught and logged at line 106, and the browser is closed at line
  108; the model records it as the failure `UriThrown`. The scrape result is a
  parameter of the extraction.
- As written, the command exits (line 88) before the extraction (lines
  91-97) runs, so the extraction is unreachable. The model states what those
  lines compute, taken on their own.
- The camelcase library is a function parameter (`pascalCase`). Its
  PascalCase rules are not modelled.
- The command-line parser (meow) and `showHelp` are not modelled. The parsed
  command line is an input, and `showHelp` with a true condition is taken to
  print help and end the command (`Err(ShowHelp)`).
- `options` is taken to be an object. A null `options` (the default applies
  only to `undefined`) throws a TypeError at line 59, before any launch, and is
  not modelled.
- The option key `type` is the field `kind`, and `label` is `fileLabel`,
  because both words are reserved in Dafny.
- The query argument is modelled as a string or null. Non-string query
  values, and numbers as IEEE doubles (`NaN`, `-0`), are not modelled.
  Numbers are integers, and only their truthiness matters here.
- The six filters are resolved but never placed in the search address,
  because the code at line 79 uses only the query. The model follows the
  code, and `Target.AddressIgnoresFilters` states it.
- The commented-out download loop after line 99 is not modelled, and neither
  are the toolkit's other commands.
- UriEncoding.Decode: this is the inverse used to state the round trip. It
  accepts `%XX` escapes and ASCII code units only. It is not the full
  `decodeURIComponent`, which also accepts non-ASCII code units.
- The regular expression is given meaning only for this one pattern. A
  general JavaScript regular-expression engine is not modelled.
