/** Request validation of server.go (validationReguest, server.go:114-150): a POST whose
    JSON body is one object {"timestamp": "..."} holding an RFC 3339 date-time. The key it
    returns is the date written in the timestamp, in the timestamp's own offset. */
module Request {
  import opened Wrappers
  import opened Dates
  import opened Timestamps

  /** What json.Decoder.Decode makes of the body, with unknown fields refused and the body
      capped at 1 MiB. A missing "timestamp" field decodes to the empty string; malformed
      JSON, an unknown field, a wrongly typed value and an oversized body are `DecodeError`. */
  datatype Decoded = Decoded(timestamp: string) | DecodeError

  /** The parts of an HTTP request the validation looks at: the method, the decoded first
      JSON value, and whether dec.More() finds further content after it. */
  datatype HttpRequest = HttpRequest(httpMethod: string, body: Decoded, more: bool)

  datatype ValidationError = MethodNotAllowed | InvalidJson | ExtraJsonContent | InvalidTimestamp

  /** The status code http.Error sends for each error. */
  function Status(e: ValidationError): int {
    if e == MethodNotAllowed then 405 else 400
  }

  /** The message http.Error is given for each error; it sends it followed by a newline. */
  function Message(e: ValidationError): string {
    match e
    case MethodNotAllowed => "method not allowed"
    case InvalidJson => "invalid_json Invalid JSON body: "
    case ExtraJsonContent => "invalid_json Unexpected extra JSON content"
    case InvalidTimestamp => "invalid_timestamp imestamp must be RFC3339, e.g. 2026-01-23T11:07:00+03:00"
  }

  /** validationReguest: method, then decoding, then trailing content, then the timestamp;
      on success the timestamp's date formatted as "2006-01-02". */
  function ValidationRequest(r: HttpRequest): Result<string, ValidationError> {
    if r.httpMethod != "POST" then Failure(MethodNotAllowed)
    else if r.body.DecodeError? then Failure(InvalidJson)
    else if r.more then Failure(ExtraJsonContent)
    else
      match ParseRFC3339(r.body.timestamp)
      case None => Failure(InvalidTimestamp)
      case Some(t) =>
        DatePartIsPrefix(r.body.timestamp);
        Success(FormatDate(t.date))
  }

  /** The checks come in a fixed order and the first that fails decides the error: a
      non-POST request is refused whatever its body; a body that does not decode is refused
      before trailing content is considered; and so on. */
  lemma ValidationOrder(r: HttpRequest)
    ensures r.httpMethod != "POST" ==> ValidationRequest(r) == Failure(MethodNotAllowed)
    ensures r.httpMethod == "POST" && r.body.DecodeError? ==> ValidationRequest(r) == Failure(InvalidJson)
    ensures r.httpMethod == "POST" && r.body.Decoded? && r.more ==> ValidationRequest(r) == Failure(ExtraJsonContent)
    ensures r.httpMethod == "POST" && r.body.Decoded? && !r.more && ParseRFC3339(r.body.timestamp).None?
        ==> ValidationRequest(r) == Failure(InvalidTimestamp)
  {
  }

  /** A request is accepted exactly when it is a POST with a single decodable object whose
      timestamp is RFC 3339; the key is then the first ten characters of the timestamp, and
      it is a date the finder's "2006-01-02" layout accepts. */
  lemma ValidationAccepts(r: HttpRequest)
    ensures ValidationRequest(r).Success?
        <==> r.httpMethod == "POST" && r.body.Decoded? && !r.more && ParseRFC3339(r.body.timestamp).Some?
    ensures ValidationRequest(r).Success? ==>
      && ValidationRequest(r).value == r.body.timestamp[..10]
      && ParseDate(ValidationRequest(r).value) == Some(ParseRFC3339(r.body.timestamp).value.date)
  {
    if ValidationRequest(r).Success? {
      var s := r.body.timestamp;
      DatePartIsPrefix(s);
      FormatDateThenParse(ParseRFC3339(s).value.date);
    }
  }

  /** An empty timestamp, which is also what a body without the field decodes to, is
      refused as an invalid timestamp. */
  lemma EmptyTimestampRefused(r: HttpRequest)
    requires r.httpMethod == "POST" && r.body == Decoded("") && !r.more
    ensures ValidationRequest(r) == Failure(InvalidTimestamp)
  {
  }

  /** The key depends only on the date written in the timestamp: two accepted timestamps
      with the same first ten characters give the same key, whatever their clock time,
      fraction or offset. */
  lemma KeyIgnoresClockAndOffset(r1: HttpRequest, r2: HttpRequest)
    requires ValidationRequest(r1).Success? && ValidationRequest(r2).Success?
    ensures ValidationRequest(r1) == ValidationRequest(r2)
        <==> r1.body.timestamp[..10] == r2.body.timestamp[..10]
  {
    ValidationAccepts(r1);
    ValidationAccepts(r2);
  }

  /** Every error is reported with a 4xx status and its own message. */
  lemma ErrorsAreClientErrors(e: ValidationError, f: ValidationError)
    ensures 400 <= Status(e) < 500
    ensures Message(e) == Message(f) ==> e == f
  {
  }
}
