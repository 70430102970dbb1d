/** The response class: its setters, `parse` and `to_string`. */
module HttpResponse {
  import opened Strings
  import opened Decimal
  import opened HttpTokens
  import opened HttpUtils
  import opened HeaderBlock
  import opened HeaderFields
  import opened MessageHeaders
  import opened OrderedMap
  import opened ResponseGrammar
  import opened ResponseTheorems
  import Setters

  class HttpResponse {
    var body: string
    var headers: Headers
    var status: HttpStatus
    var version: HttpVersion

    function Value(): Response
      reads this
    {
      Response(body, headers, status, version)
    }

    constructor ()
      ensures Value() == DEFAULT_RESPONSE == Response("", map[], StatusOk, Http11)
    {
      body, headers, status, version := "", map[], StatusOk, Http11;
    }

    /** The offset-driven parser computes what the grammar says, for every text. */
    static method Parse(response: string) returns (r: Result<HttpResponse>)
      requires |response| < SIZE_MODULUS
      ensures match ParseResponse(response)
              case Ok(value) => r.Ok? && fresh(r.value) && r.value.Value() == value
              case Err(e) => r == Err(e)
              case OutOfRange => r.OutOfRange?
      ensures r.Ok? ==>
                && "HTTP/1.1" <= response && |response| > 9
                && match r.value.status
                   case StatusOk => "200 OK" <= response[9..]
                   case BadRequest => "400 Bad Request" <= response[9..]
                   case NotFound => "404 Not Found" <= response[9..]
                   case InternalServerError => "500 Internal Server Error" <= response[9..]
      ensures r.Ok? ==>
                exists offset: nat ::
                  && StartLine(response, r.value.version, r.value.status, offset)
                  && ReadInto(map[], RestAt(response, offset)) == Some((r.value.headers, r.value.body))
    {
      hide ParseResponse, ReadInto, StartLine, LeadsToBad;
      var startLine, offset := ParseStartLine(response);
      if !startLine.Ok? {
        return if startLine.Err? then Err(startLine.error) else OutOfRange;
      }
      var result := new HttpResponse();
      result.version, result.status := startLine.value.0, startLine.value.1;

      var headersResult;
      headersResult, offset := TryGetHeaders(response, offset);
      if !headersResult.Ok? {
        return Err(headersResult.error);
      }
      result.headers := headersResult.value;
      ghost var body := RestAt(response, offset);

      if offset < |response| {
        var bodyResult;
        bodyResult, offset := TryGetBody(response, offset);
        assert bodyResult == Ok(body);  // the guard rules the error out
        result.body := bodyResult.value;
      }
      assert result.body == body;
      StatusTokens(response);
      return Ok(result);
    }

    /** Version and status, and the offset at which the header lines start. They are those of the
        status line whatever becomes of the header section, whose error is never reported here. */
    static method ParseStartLine(response: string)
      returns (r: Result<(HttpVersion, HttpStatus)>, offset: nat)
      ensures match r
              case Err(e) => ParseResponse(response) == Err(e) && e != ParseErrorHeaders
              case OutOfRange => ParseResponse(response) == OutOfRange
              case Ok((v, s)) =>
                && StartLine(response, v, s, offset)
                && ParseResponse(response) == Finish(v, s, RestAt(response, offset))
    {
      hide FirstMatch, ParseResponse, ParseLayout, ParseStatus, Finish;
      hide StartLine, StatusText, VersionText, RestAt;
      offset := 0;
      var versionResult;
      versionResult, offset := TryGetVersion(response, offset);
      assert response[0..] == response;
      VersionStage(response);
      if !versionResult.Ok? {
        return Err(versionResult.error), offset;
      }
      ghost var gapAt := offset;
      StatusStage(response, gapAt, versionResult.value);
      offset := offset + |" "|;

      var statusResult;
      statusResult, offset := TryGetStatus(response, offset);
      if !statusResult.Ok? {
        return if statusResult.Err? then Err(statusResult.error) else OutOfRange, offset;
      }
      StartLineFound(response, gapAt, offset, versionResult.value, statusResult.value);
      offset := offset + |CRLF|;
      r := Ok((versionResult.value, statusResult.value));
    }

    method GetHeader(name: string) returns (value: string)
      ensures value == if name in headers then headers[name] else ""
    {
      if name in headers {
        value := headers[name];
      } else {
        value := "";
      }
    }

    /** The stepwise printer writes the text of the canonical layout. */
    method ToString() returns (result: string)
      ensures result == PrintResponse(Value())
      ensures var fields := InOrder(headers);
              result ==
                "HTTP/1.1" + " "
                + (match status
                   case StatusOk => "200 OK"
                   case BadRequest => "400 Bad Request"
                   case NotFound => "404 Not Found"
                   case InternalServerError => "500 Internal Server Error")
                + "\r\n"
                + Flatten(seq(|fields|, i requires 0 <= i < |fields| =>
                    fields[i].name + ": " + fields[i].value + "\r\n"))
                + "\r\n" + body
    {
      PrintedSpelling(Value());
      hide Flatten, ToDecimal, InOrder, Join, PrintResponse, StatusText, VersionText, Reason, StatusCode;
      result := "";
      result := result + (VersionText(version) + " " + ToDecimal(StatusCode(status)) + " " + Reason(status));
      FormattedStatus(version, status);
      result := result + CRLF;
      result := AppendFields(result, InOrder(headers));
      result := result + CRLF;
      result := result + body;
      PrintedText(Value());
    }

    method SetBody(value: string)
      modifies this`body, this`headers
      ensures Value() == Setters.ApplyResponse(old(Value()), Setters.SetBody(value))
      ensures body == value
      ensures headers == if value == "" then old(headers) - {"Content-Length"}
                         else old(headers)["Content-Length" := ToDecimal(|value|)]
    {
      body := value;
      if value == "" {
        headers := headers - {CONTENT_LENGTH};
      } else {
        headers := headers[CONTENT_LENGTH := ToDecimal(|value|)];
      }
    }

    method SetHeader(name: string, value: string)
      modifies this`headers
      ensures Value() == Setters.ApplyResponse(old(Value()), Setters.SetHeader(name, value))
      ensures name in headers && headers[name] == value
      ensures forall other | other != name ::
                && (other in headers <==> other in old(headers))
                && (other in headers ==> headers[other] == old(headers)[other])
    {
      headers := headers[name := value];
    }

    method SetStatus(value: HttpStatus)
      modifies this`status
      ensures Value() == Setters.ApplyResponse(old(Value()), Setters.SetStatus(value))
      ensures status == value
    {
      status := value;
    }

    method SetVersion(value: HttpVersion)
      modifies this`version
      ensures Value() == Setters.ApplyResponse(old(Value()), Setters.SetVersion(value))
      ensures version == value
    {
      version := value;
    }
  }

  lemma FormattedStatus(v: HttpVersion, s: HttpStatus)
    ensures VersionText(v) + " " + ToDecimal(StatusCode(s)) + " " + Reason(s) == VersionText(v) + " " + StatusText(s)
  {
    hide ToDecimal, VersionText, Reason, StatusCode;
    assert VersionText(v) + " " + (ToDecimal(StatusCode(s)) + " " + Reason(s)) == VersionText(v) + " " + StatusText(s);
  }
}
