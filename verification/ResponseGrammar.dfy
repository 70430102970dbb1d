/** Responses as values, and the grammar of the texts the response parser accepts. */
module ResponseGrammar {
  import opened Strings
  import opened HttpTokens
  import opened HeaderBlock
  import opened HeaderFields
  import opened HeaderSafety
  import opened MessageRest
  import opened OrderedMap

  datatype Response = Response(
    body: string,
    headers: Headers,
    status: HttpStatus,
    version: HttpVersion)

  /** A default-constructed response. */
  const DEFAULT_RESPONSE: Response := Response("", map[], StatusOk, Http11)

  /** How an accepted text is put together. `gap` is a character that is skipped without being looked
      at. */
  datatype Layout = Layout(
    version: HttpVersion,
    gap: string,
    status: HttpStatus,
    rest: Rest)

  predicate ValidLayout(l: Layout) {
    |l.gap| == 1 && ValidRest(l.rest)
  }

  function LayoutText(l: Layout): string {
    VersionText(l.version) + (l.gap + AfterGap(l))
  }

  function AfterGap(l: Layout): string {
    StatusText(l.status) + RestText(l.rest)
  }

  function Meaning(l: Layout): Response
    requires ValidLayout(l)
  {
    Response(l.rest.block.body, HeadersOf(l.rest.block), l.status, l.version)
  }

  /** The layout of a text, read from left to right. */
  function ParseLayout(text: string): Result<Layout> {
    match FirstMatch(VERSIONS, text)
    case None => Err(ParseErrorVersion)
    case Some((v, token)) => ParseStatus(v, text[|token|..])
  }

  /** From the skipped character before the status on. */
  function ParseStatus(v: HttpVersion, text: string): Result<Layout> {
    if text == "" then OutOfRange
    else match FirstMatch(STATUSES, text[1..])
      case None => Err(ParseErrorStatus)
      case Some((s, token)) =>
        match ParseRest(text[1..][|token|..])
        case None => Err(ParseErrorHeaders)
        case Some(rest) => Ok(Layout(v, text[..1], s, rest))
  }

  lemma StatusSound(v: HttpVersion, text: string)
    requires ParseStatus(v, text).Ok?
    ensures var l := ParseStatus(v, text).value;
            ValidLayout(l) && text == l.gap + AfterGap(l)
  {
    hide FirstMatch, StatusText, RestText, ParseRest, ValidRest;
    var rest := text[1..];
    StatusEntry(rest);
    var (s, token) := FirstMatch(STATUSES, rest).value;
    RestSound(rest[|token|..]);
    var l := ParseStatus(v, text).value;
    assert rest == token + rest[|token|..];
    assert text == l.gap + rest;
  }

  /** An accepted text is the text of its layout. */
  lemma LayoutSound(text: string)
    requires ParseLayout(text).Ok?
    ensures ValidLayout(ParseLayout(text).value) && LayoutText(ParseLayout(text).value) == text
  {
    VersionEntry(text);
    var (v, token) := FirstMatch(VERSIONS, text).value;
    StatusSound(v, text[|token|..]);
    assert text == token + text[|token|..];
  }

  lemma StatusComplete(l: Layout)
    requires ValidLayout(l)
    ensures ParseStatus(l.version, l.gap + AfterGap(l)) == Ok(l)
  {
    var text, tail := l.gap + AfterGap(l), RestText(l.rest);
    MatchStatus(l.status, tail);
    RestComplete(l.rest);
    assert text[1..] == AfterGap(l) && text[..1] == l.gap;
    assert AfterGap(l)[|StatusText(l.status)|..] == tail;
  }

  /** The parser accepts the text of every well-formed layout and recovers that layout. */
  lemma LayoutComplete(l: Layout)
    requires ValidLayout(l)
    ensures ParseLayout(LayoutText(l)) == Ok(l)
  {
    var rest := l.gap + AfterGap(l);
    MatchVersion(l.version, rest);
    StatusComplete(l);
    assert LayoutText(l)[|VersionText(l.version)|..] == rest;
  }

  /** The grammar is exact and unambiguous: parsing is the inverse of writing a layout down. */
  lemma LayoutIff(text: string, l: Layout)
    ensures ParseLayout(text) == Ok(l) <==> ValidLayout(l) && LayoutText(l) == text
  {
    if ParseLayout(text) == Ok(l) {
      LayoutSound(text);
    }
    if ValidLayout(l) && LayoutText(l) == text {
      LayoutComplete(l);
    }
  }

  /** `http_response::parse` as a function of the text. */
  function ParseResponse(text: string): Result<Response> {
    match ParseLayout(text)
    case Err(e) => Err(e)
    case OutOfRange => OutOfRange
    case Ok(l) =>
      LayoutSound(text);
      Ok(Meaning(l))
  }

  lemma VersionStage(response: string)
    ensures var found := FirstMatch(VERSIONS, response);
            if found.None? then ParseResponse(response) == Err(ParseErrorVersion)
            else
              && ParseLayout(response) == ParseStatus(found.value.0, response[|found.value.1|..])
              && response[..|found.value.1|] == VersionText(found.value.0)
  {
    hide FirstMatch, ParseStatus, VersionText;
    VersionEntry(response);
  }

  /** The parser in terms of offsets into the whole text, after the version has been read. */
  lemma StatusStage(response: string, offset: nat, v: HttpVersion)
    requires offset <= |response|
    requires ParseLayout(response) == ParseStatus(v, response[offset..])
    ensures offset == |response| ==> ParseResponse(response) == OutOfRange
    ensures offset < |response| ==>
              var found := FirstMatch(STATUSES, response[offset + 1..]);
              if found.None? then ParseResponse(response) == Err(ParseErrorStatus)
              else
                var end := offset + 1 + |found.value.1|;
                && end <= |response| && response[offset + 1..end] == StatusText(found.value.0)
                && ParseResponse(response) == Finish(v, found.value.0, RestAt(response, end + 2))
  {
    hide FirstMatch, ParseResponse, ParseLayout, ParseStatus, Finish, RestAt, StatusText;
    StatusOutcome(response, v, response[offset..]);
    if offset < |response| {
      RestOfRest(response, offset, 1);
      var found := FirstMatch(STATUSES, response[offset + 1..]);
      if found.Some? {
        StatusEntry(response[offset + 1..]);
        RestAfter(response, offset + 1, |found.value.1|, 2);
        RestPrefix(response, offset + 1, |found.value.1|);
      }
    }
  }

  lemma StatusOutcome(response: string, v: HttpVersion, text: string)
    requires ParseLayout(response) == ParseStatus(v, text)
    ensures text == "" ==> ParseResponse(response) == OutOfRange
    ensures text != "" ==>
              var found := FirstMatch(STATUSES, text[1..]);
              ParseResponse(response) ==
                if found.None? then Err(ParseErrorStatus)
                else Finish(v, found.value.0, RestAt(text[1..][|found.value.1|..], 2))
  {
    hide FirstMatch, ParseLayout, ParseRest, HeadersOf, ReadInto;
    if text != "" {
      var found := FirstMatch(STATUSES, text[1..]);
      if found.Some? {
        RestContents(text[1..][|found.value.1|..]);
      }
    }
  }

  /** What remains to be read after the start line. */
  function Finish(v: HttpVersion, s: HttpStatus, text: string): Result<Response> {
    match ReadInto(map[], text)
    case None => Err(ParseErrorHeaders)
    case Some((headers, body)) => Ok(Response(body, headers, s, v))
  }

  function StartLineText(v: HttpVersion, gap: string, s: HttpStatus): string {
    VersionText(v) + (gap + StatusText(s))
  }

  /** The text starts with a status line of these parts, and two characters after it, present or not,
      the header lines start at the offset. */
  ghost predicate StartLine(text: string, v: HttpVersion, s: HttpStatus, offset: nat) {
    && 2 <= offset <= |text| + 2
    && exists gap: string :: |gap| == 1 && text[..offset - 2] == StartLineText(v, gap, s)
  }

  /** A text determines its status line. */
  lemma StartLineUnique(text: string, v: HttpVersion, s: HttpStatus, offset: nat,
                        w: HttpVersion, status: HttpStatus, other: nat)
    requires StartLine(text, v, s, offset) && StartLine(text, w, status, other)
    ensures v == w && s == status && offset == other
  {
    hide FirstMatch, StartLine, StatusText;
    StartLineRead(text, v, s, offset);
    StartLineRead(text, w, status, other);
  }

  lemma StartLineRead(text: string, v: HttpVersion, s: HttpStatus, offset: nat)
    requires StartLine(text, v, s, offset)
    ensures var start := |VersionText(v)| + 1;
            && start <= |text| && FirstMatch(STATUSES, text[start..]) == Some((s, StatusText(s)))
            && offset == start + |StatusText(s)| + 2
  {
    hide FirstMatch, StatusText;
    var gap: string :| |gap| == 1 && text[..offset - 2] == StartLineText(v, gap, s);
    var start, after := |VersionText(v)| + 1, text[offset - 2..];
    assert text == StartLineText(v, gap, s) + after;
    assert text[start..] == StatusText(s) + after;
    MatchStatus(s, after);
  }

  /** The parts of a status line, found one after the other. */
  lemma StartLineFound(text: string, gapAt: nat, end: nat, v: HttpVersion, s: HttpStatus)
    requires gapAt < end <= |text| && text[..gapAt] == VersionText(v) && text[gapAt + 1..end] == StatusText(s)
    ensures StartLine(text, v, s, end + 2)
  {
    hide StatusText;
    assert text[..end] == text[..gapAt] + (text[gapAt..gapAt + 1] + text[gapAt + 1..end]);
    assert text[..end] == StartLineText(v, text[gapAt..gapAt + 1], s);
  }

  /** A response is the result of parsing exactly when some well-formed layout of the text means it. */
  lemma ResponseIff(text: string, r: Response)
    ensures ParseResponse(text) == Ok(r)
       <==> exists l :: ValidLayout(l) && LayoutText(l) == text && Meaning(l) == r
  {
    forall l ensures ParseLayout(text) == Ok(l) <==> ValidLayout(l) && LayoutText(l) == text {
      LayoutIff(text, l);
    }
  }

  /** The layout of the text that is written for a response. */
  function PrintLayout(r: Response): Layout {
    Layout(r.version, " ", r.status, PrintRest(r.headers, r.body))
  }

  /** `http_response::to_string` as a function of the response. */
  function PrintResponse(r: Response): string {
    LayoutText(PrintLayout(r))
  }

  /** The printed text, spelled out. */
  lemma PrintedSpelling(r: Response)
    ensures var fields := InOrder(r.headers);
            PrintResponse(r) ==
              "HTTP/1.1" + " "
              + (match r.status
                 case StatusOk => "200 OK"
                 case BadRequest => "400 Bad Request"
                 case NotFound => "404 Not Found"
                 case InternalServerError => "500 Internal Server Error")
              + "\r\n"
              + Flatten(seq(|fields|, i requires 0 <= i < |fields| => fields[i].name + ": " + fields[i].value + "\r\n"))
              + "\r\n" + r.body
  {
    hide PrintResponse, Join, RenderAll, InOrder, StatusText;
    PrintedText(r);
    StatusSpelling(r.status);
    LinesSpelled(InOrder(r.headers));
  }

  lemma PrintedText(r: Response)
    ensures PrintResponse(r) ==
              VersionText(r.version) + " " + StatusText(r.status) + CRLF
              + Join(PrintRest(r.headers, r.body).block.lines) + CRLF + r.body
  {
    hide Join, PrintRest, BlockText, StatusText;
    PrintedRest(r.headers, r.body);
    var fields := Join(PrintRest(r.headers, r.body).block.lines);
    var start := VersionText(r.version) + " " + StatusText(r.status) + CRLF;
    assert start == VersionText(r.version) + (" " + (StatusText(r.status) + CRLF));
  }
}
