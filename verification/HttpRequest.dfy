/** The request class: its setters, `parse` and `to_string`. */
module HttpRequest {
  import opened Strings
  import opened Decimal
  import opened HttpTokens
  import opened HttpUtils
  import opened HeaderBlock
  import opened HeaderFields
  import opened MessageHeaders
  import opened OrderedMap
  import opened RequestGrammar
  import opened RequestTheorems
  import Setters

  class HttpRequest {
    var method_: HttpMethod
    var uri: string
    var version: HttpVersion
    var headers: Headers
    var body: string

    function Value(): Request
      reads this
    {
      Request(method_, uri, version, headers, body)
    }

    constructor ()
      ensures Value() == DEFAULT_REQUEST == Request(Get, "", Http11, map[], "")
    {
      method_, uri, version, headers, body := Get, "", Http11, map[], "";
    }

    constructor Of(method_: HttpMethod, uri: string, version: HttpVersion, headers: Headers, body: string)
      ensures Value() == Request(method_, uri, version, headers, body)
    {
      this.method_, this.uri, this.version, this.headers, this.body := method_, uri, version, headers, body;
    }

    /** The offset-driven parser computes what the grammar says, for every text. */
    static method Parse(request: string) returns (r: Result<HttpRequest>)
      requires |request| < SIZE_MODULUS
      ensures match ParseRequest(request)
              case Ok(value) => r.Ok? && fresh(r.value) && r.value.Value() == value
              case Err(e) => r == Err(e)
              case OutOfRange => r.OutOfRange?
      ensures r.Ok? ==>
                match r.value.method_
                case Get => "GET" <= request
                case Head => "HEAD" <= request
                case Post => "POST" <= request
      ensures r.Ok? ==>
                exists offset: nat ::
                  && StartLine(request, r.value.method_, r.value.uri, r.value.version, offset)
                  && ReadInto(map[], RestAt(request, offset)) == Some((r.value.headers, r.value.body))
    {
      MethodTokens(request);
      hide ParseRequest, ReadInto;
      var startLine, offset := ParseStartLine(request);
      if !startLine.Ok? {
        return if startLine.Err? then Err(startLine.error) else OutOfRange;
      }
      var result := new HttpRequest();
      result.method_, result.uri, result.version := startLine.value.0, startLine.value.1, startLine.value.2;

      var headersResult;
      headersResult, offset := TryGetHeaders(request, offset);
      if !headersResult.Ok? {
        return Err(headersResult.error);
      }
      result.headers := headersResult.value;

      ghost var body := RestAt(request, offset);

      if offset < |request| {
        var bodyResult;
        bodyResult, offset := TryGetBody(request, offset);
        assert bodyResult == Ok(body);  // the guard rules the error out
        result.body := bodyResult.value;
      }
      assert result.body == body;
      return Ok(result);
    }

    /** Method, URI and version, and the offset at which the header lines start. They are those of
        the start line whatever becomes of the header section, whose error is never reported here. */
    static method ParseStartLine(request: string)
      returns (r: Result<(HttpMethod, string, HttpVersion)>, offset: nat)
      ensures match r
              case Err(e) => ParseRequest(request) == Err(e) && e != ParseErrorHeaders
              case OutOfRange => ParseRequest(request) == OutOfRange
              case Ok((m, uri, v)) =>
                && StartLine(request, m, uri, v, offset)
                && ParseRequest(request) == Finish(m, uri, v, RestAt(request, offset))
    {
      hide FirstMatch, Find, Contains, ParseRequest, ParseTarget, ParseVersion, ParseLayout, Finish;
      hide MethodAt, TargetAt, StartLine, RestAt, OccursAt, MethodText, VersionText, ValidUri;
      offset := 0;
      var methodResult;
      methodResult, offset := TryGetMethod(request, offset);
      assert request[0..] == request;
      MethodStage(request);
      if !methodResult.Ok? {
        return Err(methodResult.error), offset;
      }
      ghost var gapAt := offset;
      TargetStage(request, gapAt, methodResult.value);
      offset := offset + |" "|;

      var uriResult;
      uriResult, offset := TryGetUri(request, offset);
      if !uriResult.Ok? {
        return if uriResult.Err? then Err(uriResult.error) else OutOfRange, offset;
      }
      offset := offset + |" "|;
      VersionStage(request, offset, methodResult.value, request[gapAt..gapAt + 1], uriResult.value);

      var versionResult;
      versionResult, offset := TryGetVersion(request, offset);
      if !versionResult.Ok? {
        return Err(versionResult.error), offset;
      }
      offset := offset + |CRLF|;
      r := Ok((methodResult.value, uriResult.value, versionResult.value));
    }

    method GetHeader(name: string) returns (value: string)
      ensures value == if name in headers then headers[name] else ""
    {
      if name in headers {
        value := headers[name];
      } else {
        value := "";
      }
    }

    /** The stepwise printer writes the text of the canonical layout. */
    method ToString() returns (result: string)
      ensures result == PrintRequest(Value())
      ensures var fields := InOrder(headers);
              result ==
                (match method_ case Get => "GET" case Head => "HEAD" case Post => "POST")
                + " " + (uri + " ") + ("HTTP/1.1" + "\r\n")
                + Flatten(seq(|fields|, i requires 0 <= i < |fields| =>
                    fields[i].name + ": " + fields[i].value + "\r\n"))
                + "\r\n" + body
    {
      hide InOrder, Join, PrintRequest, Flatten, MethodText, VersionText;
      PrintedSpelling(Value());
      result := "";
      result := result + (MethodText(method_) + " ");
      result := result + (uri + " ");
      result := result + (VersionText(version) + CRLF);
      result := AppendFields(result, InOrder(headers));
      result := result + CRLF;
      result := result + body;
      PrintedText(Value());
    }

    method SetBody(value: string)
      modifies this`body, this`headers
      ensures Value() == Setters.ApplyRequest(old(Value()), Setters.SetBody(value))
      ensures body == value
      ensures headers == if value == "" then old(headers) - {"Content-Length"}
                         else old(headers)["Content-Length" := ToDecimal(|value|)]
    {
      body := value;
      if value == "" {
        headers := headers - {CONTENT_LENGTH};
      } else {
        headers := headers[CONTENT_LENGTH := ToDecimal(|value|)];
      }
    }

    method SetHeader(name: string, value: string)
      modifies this`headers
      ensures Value() == Setters.ApplyRequest(old(Value()), Setters.SetHeader(name, value))
      ensures name in headers && headers[name] == value
      ensures forall other | other != name ::
                && (other in headers <==> other in old(headers))
                && (other in headers ==> headers[other] == old(headers)[other])
    {
      headers := headers[name := value];
    }

    method SetMethod(value: HttpMethod)
      modifies this`method_
      ensures Value() == Setters.ApplyRequest(old(Value()), Setters.SetMethod(value))
      ensures method_ == value
    {
      method_ := value;
    }

    method SetUri(value: string)
      modifies this`uri
      ensures Value() == Setters.ApplyRequest(old(Value()), Setters.SetUri(value))
      ensures uri == value
    {
      uri := value;
    }

    method SetVersion(value: HttpVersion)
      modifies this`version
      ensures Value() == Setters.ApplyRequest(old(Value()), Setters.SetVersion(value))
      ensures version == value
    {
      version := value;
    }
  }
}
