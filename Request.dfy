/** `hasBody(req)` and the default export `typeofrequest(req, ...types)`. */
module RequestType {
  import opened Wrappers
  import opened Normalizer
  import opened TypeResolver

  /** A request's headers as the code reads them: plain property lookup with
      the exact (lower-case) key; a missing property is `undefined`. */
  type Headers = map<string, string>

  /** JavaScript's `Number(s)` is not `NaN`: decided by float parsing, which
      stays outside the model. */
  type IsNumeric = string -> bool

  /** `null` (no body), `false` (no match) or the matched type. */
  datatype Outcome = NoBody | NoMatch | Matched(mediaType: string)

  function Header(headers: Headers, name: string): Option<string>
  {
    if name in headers then Some(headers[name]) else None
  }

  /** `Number.isNaN(Number(v))`, where `Number(undefined)` is `NaN`. */
  function NumberIsNaN(v: Option<string>, isNumeric: IsNumeric): (r: bool)
    // a missing header is NaN; a present one is NaN exactly when not numeric
    ensures v.None? ==> r
    ensures v.Some? ==> (r <==> !isNumeric(v.value))
  {
    match v
    case None => true
    case Some(s) => !isNumeric(s)
  }

  function HasBody(headers: Headers, isNumeric: IsNumeric): (r: bool)
    // a transfer-encoding entry of any value, or a numeric content-length;
    // the keys are matched exactly, and a missing content-length never counts
    ensures r <==> "transfer-encoding" in headers
                   || ("content-length" in headers && isNumeric(headers["content-length"]))
  {
    Header(headers, "transfer-encoding").Some?
    || !NumberIsNaN(Header(headers, "content-length"), isNumeric)
  }

  function FromTypeIs(result: Option<string>): (r: Outcome)
    ensures !r.NoBody?
    ensures r.Matched? <==> result.Some?
    ensures r.Matched? ==> r.mediaType == result.value
  {
    match result
    case None => NoMatch
    case Some(t) => Matched(t)
  }

  function TypeOfRequest(headers: Headers, args: seq<Arg>, isNumeric: IsNumeric, parse: Parse, lookup: Lookup): (r: Outcome)
    // no body is reported as null, and only then
    ensures r.NoBody? <==> !HasBody(headers, isNumeric)
    // otherwise the answer is typeIs of the content-type header with the
    // caller's own arguments: handing over the flattened list changes nothing
    ensures !r.NoBody? ==>
              r == FromTypeIs(TypeIsOf(Header(headers, "content-type"), args, parse, lookup))
  {
    if !HasBody(headers, isNumeric) then NoBody
    else
      var types := Flatten(args);
      var value := Header(headers, "content-type");
      FlattenOneArray(types);
      FromTypeIs(TypeIsOf(value, [Many(types)], parse, lookup))
  }

  /** A request without any of the body headers is reported as having no body. */
  lemma NoHeadersNoBody(args: seq<Arg>, isNumeric: IsNumeric, parse: Parse, lookup: Lookup)
    ensures TypeOfRequest(map[], args, isNumeric, parse, lookup) == NoBody
  {
  }

  /** A body without a content-type header matches nothing, whatever is asked,
      whether the body is signalled by transfer-encoding or by content-length. */
  lemma BodyWithoutContentType(headers: Headers, args: seq<Arg>, isNumeric: IsNumeric, parse: Parse, lookup: Lookup)
    requires HasBody(headers, isNumeric) && "content-type" !in headers
    ensures TypeOfRequest(headers, args, isNumeric, parse, lookup) == NoMatch
  {
  }

  /** A non-numeric content-length alone does not make a body. */
  lemma BogusLengthNoBody(headers: Headers, args: seq<Arg>, isNumeric: IsNumeric, parse: Parse, lookup: Lookup)
    requires "transfer-encoding" !in headers
    requires "content-length" in headers && !isNumeric(headers["content-length"])
    ensures TypeOfRequest(headers, args, isNumeric, parse, lookup) == NoBody
  {
  }

  /** Header keys are not case-folded: a request whose headers are stored
      only under "Transfer-Encoding", "Content-Length" and "Content-Type" has
      no body, whatever those entries hold. */
  lemma CapitalisedKeysNotSeen(transferEncoding: string, contentLength: string, contentType: string,
                               args: seq<Arg>, isNumeric: IsNumeric, parse: Parse, lookup: Lookup)
    ensures var headers := map["Transfer-Encoding" := transferEncoding,
                               "Content-Length" := contentLength,
                               "Content-Type" := contentType];
            && !HasBody(headers, isNumeric)
            && TypeOfRequest(headers, args, isNumeric, parse, lookup) == NoBody
  {
    var headers := map["Transfer-Encoding" := transferEncoding,
                       "Content-Length" := contentLength,
                       "Content-Type" := contentType];
    assert "transfer-encoding"[0] != "Transfer-Encoding"[0];
    assert "content-length"[0] != "Content-Length"[0];
    assert "content-length"[0] != "Content-Type"[0];
    assert "transfer-encoding" !in headers && "content-length" !in headers;
  }
}
