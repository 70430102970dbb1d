/** The setters of requests and responses, as functions of the message. */
module Setters {
  import opened HttpTokens
  import opened HeaderBlock
  import opened MessageHeaders
  import RequestGrammar
  import ResponseGrammar

  datatype Setter =
    | SetBody(body: string)
    | SetHeader(name: string, value: string)
    | SetMethod(m: HttpMethod)
    | SetUri(uri: string)
    | SetStatus(status: HttpStatus)
    | SetVersion(version: HttpVersion)

  /** The part of a message that the setters shared by requests and responses change. */
  datatype Content = Content(headers: Headers, body: string)

  function ApplyContent(c: Content, s: Setter): Content {
    match s
    case SetBody(body) => Content(WithLength(c.headers, body), body)
    case SetHeader(name, value) => c.(headers := c.headers[name := value])
    case _ => c
  }

  function ApplyRequest(r: RequestGrammar.Request, s: Setter): RequestGrammar.Request {
    match s
    case SetMethod(m) => r.(method_ := m)
    case SetUri(uri) => r.(uri := uri)
    case SetVersion(v) => r.(version := v)
    case _ =>
      var c := ApplyContent(Content(r.headers, r.body), s);
      r.(headers := c.headers, body := c.body)
  }

  function ApplyResponse(r: ResponseGrammar.Response, s: Setter): ResponseGrammar.Response {
    match s
    case SetStatus(status) => r.(status := status)
    case SetVersion(v) => r.(version := v)
    case _ =>
      var c := ApplyContent(Content(r.headers, r.body), s);
      r.(headers := c.headers, body := c.body)
  }
}
