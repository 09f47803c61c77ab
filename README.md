# request-type-is, modelled in Dafny

A model of `index.js` of `request-type-is`. The library decides whether an
HTTP request's `Content-Type` matches one of a list of caller-supplied type
specifiers. A specifier can be an extension such as `png`, a shorthand
(`urlencoded`, `multipart`), a `+suffix`, or a full media type that may hold
`*` wildcards. The model covers the four cooperating pieces:

- `normalize` (`Normalizer.Normalize`) turns one specifier into a pattern, or
  into `false`. The cases are tried in a fixed order: non-string, then the
  shorthands, then a leading `+`, then a bare extension looked up in a table,
  then passthrough.
- `mimeMatch(expected, actual)` (`Matcher.MimeMatch`) is the wildcard matcher,
  with the pattern as the first argument. It is written as the source writes
  it, with JavaScript's `split('/')` and `substr` (module `JsStrings`).
- `typeIs(value, ...types)` is modelled twice: as a method with the source's
  loop (`TypeResolver.TypeIs`) and as a value (`TypeResolver.TypeIsOf`). The
  method is proved equal to the value. The value is defined through the
  reference search `TypeResolver.FirstMatch`.
- `hasBody(req)` and the default export `typeofrequest(req, ...types)`
  (`RequestType.HasBody`, `RequestType.TypeOfRequest`) give the three-way
  answer `null` / `false` / type.

Modelling conventions:

- JavaScript's `false` (and `null` from `tryNormalizeType`) is `None` of
  `Wrappers.Option`.
- The result of `typeofrequest` is `RequestType.Outcome`: `NoBody`,
  `NoMatch` or `Matched(type)`.
- A specifier is `Normalizer.Spec`: `Str(s)`, or `NonString` for any other
  JavaScript value.
- The variadic arguments are a sequence of `TypeResolver.Arg`: one specifier,
  or an array of them, flattened one level as `[].concat(...)` does.

Collaborators outside the file are passed in as function parameters:

- `parse: string -> Option<string>` stands for
  `typer.format(typer.parse(v))` with the parameters removed. It is `None`
  where the parser throws.
- `lookup: string -> Option<string>` stands for `mime.lookup`.
- `isNumeric: string -> bool` stands for `!Number.isNaN(Number(v))`.

Nothing is assumed about any of these except where a lemma states it in its
`requires`.

Two behaviours of the code worth knowing:

- The matcher does not reject empty halves. The code only counts the parts
  of `split('/')` (index.js:126), so `*/*` accepts `/`
  (`Matcher.EmptyHalvesAccepted`).
- Headers are read by exact lower-case key (index.js:216-217, 260). They are
  not case-insensitive. Without a `transfer-encoding` or `content-length`
  entry under exactly those keys there is no body, whatever is stored under
  `Transfer-Encoding` or `Content-Length` (`RequestType.CapitalisedKeysNotSeen`).
  The request stand-in in `test/test.js` (lines 564-582) stores its headers
  under capitalised keys. Read as written, the code therefore cannot meet the
  `hasBody` expectations at test/test.js:198, 203 and 215, nor the
  expectations for requests built by `createRequest` at test/test.js:5-32 and
  44-191: for all of these, `hasBody` is false and `typeofrequest` gives
  `null`. The bogus-length expectation at test/test.js:208 (`false`) is met,
  but only because the capitalised `Content-Length` key is never read.

## Model

| member | source | states |
|---|---|---|
| `JsStrings.Split` | index.js:122-123 | `split('/')` yields one more part than there are separators, and no part contains the separator; empty parts are kept |
| `JsStrings.JoinSplit` | index.js:122-123 | splitting loses nothing: joining the parts with the separator gives back the input |
| `JsStrings.SplitAt` | index.js:122-126 | a string `x + "/" + y` with no `/` in `x` or `y` splits into exactly `[x, y]` |
| `JsStrings.SplitTwo` | index.js:122-126 | a string with exactly one `/` has exactly two parts, and it is those parts joined by `/` |
| `JsStrings.Substr` | index.js:136-141 | JavaScript `substr(start, length)`: the result is never longer than the length asked for nor than the string, and a request lying inside the string is the plain slice |
| `JsStrings.SubstrFrom` | index.js:140-141 | `substr(start)` with no length always reads to the end of the string; a negative start takes that many characters from the end, at most all of them |
| `JsStrings.SubstrPrefix` | index.js:136 | `substr(0, n)` is the first `n` characters, or the whole string when shorter |
| `JsStrings.SubstrLast` | index.js:139-141 | `substr(-k)` with `0 < k <= length` is the last `k` characters, so comparing it is a suffix test |
| `Normalizer.Normalize` | index.js:80-100 | non-strings give false; `urlencoded` and `multipart` map to their fixed types whatever the table says; a leading `+` gives `*/*` + s; a string with `/` passes unchanged; a bare extension gives exactly the table's answer (a miss is false); every result not taken from the table contains `/` and does not start with `+` |
| `Normalizer.LookupOnlyForExtensions` | index.js:86-99 | two extension tables can change the result only for a bare extension, and then each result is that table's entry |
| `Normalizer.NormalizeStable` | index.js:94-99 | normalising a result again returns it unchanged when it contains `/` and does not start with `+` |
| `Normalizer.NormalizeIdempotent` | index.js:80-100 | if every table entry contains `/` and does not start with `+`, normalising twice equals normalising once, for every specifier |
| `Matcher.MimeMatch` | index.js:115-151 | a match needs a pattern (not false), and both pattern and actual must contain exactly one `/` |
| `Matcher.MimeMatchParts` | index.js:130-150 | on `type/subtype` inputs the code equals the reference matcher: the type must be `*` or equal; a `*+t` subtype means the actual subtype ends with `+t`; otherwise the subtype must be `*` or equal; all comparisons are exact |
| `Matcher.FalseMatchesNothing` | index.js:117-119 | a false pattern matches nothing |
| `Matcher.MalformedNeverMatches` | index.js:122-128 | a pattern or actual without exactly one `/` never matches |
| `Matcher.AnyAny` | index.js:121-150 | `*/*` accepts an actual type if and only if it contains exactly one `/` |
| `Matcher.EmptyHalvesAccepted` | index.js:125-128 | empty halves are not rejected: `*/*` accepts `/` |
| `Matcher.LiteralMatchesItself` | index.js:130-150 | a pattern without `*` matches exactly the identical string, and only if that string contains exactly one `/` |
| `Matcher.SuffixWildcard` | index.js:130-143 | `T/*+t` accepts `A/S` if and only if `T` is `*` or equals `A`, and `S` ends with `+t` |
| `Matcher.SuffixExampleMatch` | index.js:135-143 | `*/*+xml` accepts `text/html+xml` |
| `Matcher.SuffixExampleNoSuffix` | index.js:135-143 | `*/*+xml` rejects `text/html` |
| `Matcher.SuffixExampleWrongType` | index.js:130-143 | `text/*+json` rejects `application/vnd+json`: the suffix rule does not waive the type test |
| `TypeResolver.Flatten` | index.js:183 | `[].concat(...types_)`: a single specifier argument is kept, an array argument is spread one level, and nothing else appears in the list |
| `TypeResolver.FlattenAppend` | index.js:183 | flattening keeps the caller's argument order and multiplicity: the flattening of `a + b` is the flattening of `a` followed by that of `b` |
| `TypeResolver.FlattenOne` | index.js:183 | a single specifier argument flattens to exactly that specifier |
| `TypeResolver.FlattenOneArray` | index.js:183 | flattening a single array argument gives that array back |
| `TypeResolver.TryNormalizeType` | index.js:50-60 | an absent or empty value gives null without consulting the parser; any other value gives the parser's answer, null where it throws |
| `TypeResolver.AcceptsOnlyStrings` | index.js:193 | only a string specifier can match |
| `TypeResolver.Reported` | index.js:194 | the return policy of a match: the actual type for a specifier with a leading `+` or a `*`; the caller's own specifier is handed back if and only if it is concrete (no leading `+`, no `*`) |
| `TypeResolver.FirstMatch` | index.js:190-199 | the reference search: nothing is found in an empty list, and a report is always the actual type or one of the specifiers, verbatim |
| `TypeResolver.FirstMatchFinds` | index.js:190-196 | if specifier `i` is the first that matches, the search reports it: the actual type for a `+suffix` or a `*` specifier, the specifier itself otherwise |
| `TypeResolver.FirstMatchNone` | index.js:190-199 | the search reports false exactly when no specifier matches |
| `TypeResolver.TypeIsOf` | index.js:171-200 | `typeIs` as a value: no answer without a parsed, non-empty actual type; with nothing asked, the parsed type itself |
| `TypeResolver.TypeIs` | index.js:171-200 | the loop with early return computes `TypeIsOf`: false for an invalid value, the parsed type for an empty list, the first match otherwise |
| `TypeResolver.InvalidValueNeverMatches` | index.js:174-180 | an absent, empty or unparseable value, or one that parses to an empty string, gives false for any specifiers |
| `TypeResolver.NoSpecifiersReportsParsed` | index.js:185-188 | with no specifiers after flattening, the parsed type is returned |
| `TypeResolver.FirstAcceptingWins` | index.js:190-196 | the first matching flattened specifier decides the answer, whatever follows it |
| `TypeResolver.NoMatchMeansNoneAccepts` | index.js:190-199 | with specifiers given, the result is false if and only if no specifier matches |
| `TypeResolver.ResultOrigin` | index.js:171-200 | any string result is the parsed actual type or a specifier from the flattened list, verbatim |
| `TypeResolver.ExtensionReportedVerbatim` | index.js:191-195 | a known extension listed first, whose type is the parsed actual type, is answered with the extension itself (`png`, not `image/png`) |
| `RequestType.NumberIsNaN` | index.js:217 | `Number.isNaN(Number(v))`: a missing header (`undefined`) is NaN; a present one is NaN exactly when it is not numeric |
| `RequestType.HasBody` | index.js:213-219 | true if and only if a `transfer-encoding` entry exists, or a `content-length` entry exists and is numeric; keys are exact and a missing length never counts |
| `RequestType.TypeOfRequest` | index.js:250-263 | null if and only if there is no body; otherwise `typeIs` of the `content-type` header with the caller's own arguments, so passing the already flattened list is harmless, and the result is never null |
| `RequestType.NoHeadersNoBody` | index.js:250-254 | a request with no headers gives null |
| `RequestType.BodyWithoutContentType` | index.js:250-262 | a body, signalled by either header, without a `content-type` header gives false for any specifiers |
| `RequestType.BogusLengthNoBody` | index.js:213-219 | a non-numeric `content-length` alone gives null |
| `RequestType.CapitalisedKeysNotSeen` | index.js:216-217 | a request whose headers sit only under `Transfer-Encoding`, `Content-Length` and `Content-Type`, as the test stand-in stores them, has no body and gives null, whatever those entries hold |

## Left out

- `normalizeType` (index.js:27-37) is the parameter `parse`. This covers the
  media-type grammar, the lower-casing and the removal of parameters done by
  `media-typer`, and the in-place `type.parameters = undefined`. The
  `media-typer` package is not part of this model.
- `mime.lookup` (index.js:99) is the parameter `lookup`. The `mime-types`
  database is not part of this model. Facts such as `json` mapping to
  `application/json` appear only as `requires` on that parameter.
- The `Number(...)` coercion in `hasBody` (index.js:217) is the parameter
  `isNumeric`, because it is floating-point parsing. An absent header is
  modelled as `NaN`.
- A `Request` object passed as `value` to `typeIs` is not modelled. It works
  only through the external parser. `value` is an optional string.
- Header values are strings. Array-valued headers are not modelled.
- Nesting deeper than one level is represented by `NonString`. That is how
  `normalize` treats an array left after flattening.
- The `!types` test at index.js:186 cannot fail on the result of `concat`.
  Only the length test is modelled.
- JavaScript strings are UTF-16 code-unit sequences. They are modelled as
  `seq<char>`, which makes no difference for the comparisons done here.
- `index.d.ts` holds only declarations. Its `mimeMatch(actual, expected)`
  names the parameters in reverse order; the model follows index.js, where
  the pattern comes first.
