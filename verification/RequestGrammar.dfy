/** Requests as values, and the grammar of the texts the request parser accepts. */
module RequestGrammar {
  import opened Strings
  import opened HttpTokens
  import opened HeaderBlock
  import opened HeaderFields
  import opened HeaderSafety
  import opened MessageRest
  import opened OrderedMap

  datatype Request = Request(
    method_: HttpMethod,
    uri: string,
    version: HttpVersion,
    headers: Headers,
    body: string)

  /** A default-constructed request. */
  const DEFAULT_REQUEST: Request := Request(Get, "", Http11, map[], "")

  /** How an accepted text is put together. `gap` is a character that is skipped without being looked
      at. */
  datatype Layout = Layout(
    method_: HttpMethod,
    gap: string,
    uri: string,
    version: HttpVersion,
    rest: Rest)

  predicate ValidUri(uri: string) {
    uri != "" && uri[0] == '/' && ' ' !in uri
  }

  predicate ValidLayout(l: Layout) {
    |l.gap| == 1 && ValidUri(l.uri) && ValidRest(l.rest)
  }

  function LayoutText(l: Layout): string {
    MethodText(l.method_) + (l.gap + TargetText(l))
  }

  function TargetText(l: Layout): string {
    l.uri + (" " + AfterUri(l))
  }

  function AfterUri(l: Layout): string {
    VersionText(l.version) + RestText(l.rest)
  }

  function Meaning(l: Layout): Request
    requires ValidLayout(l)
  {
    Request(l.method_, l.uri, l.version, HeadersOf(l.rest.block), l.rest.block.body)
  }

  /** The layout of a text, read from left to right. */
  function ParseLayout(text: string): Result<Layout> {
    match FirstMatch(METHODS, text)
    case None => Err(ParseErrorMethod)
    case Some((m, token)) => ParseTarget(m, text[|token|..])
  }

  /** From the skipped character before the URI on. */
  function ParseTarget(m: HttpMethod, text: string): Result<Layout> {
    if |text| < 2 then OutOfRange
    else if text[1] != '/' then Err(ParseErrorUri)
    else
      var target := text[1..];
      match Find(target, " ", 0)
      case None => Err(ParseErrorUri)
      case Some(end) => ParseVersion(m, text[..1], target[..end], target[end + 1..])
  }

  function ParseVersion(m: HttpMethod, gap: string, uri: string, text: string): Result<Layout> {
    match FirstMatch(VERSIONS, text)
    case None => Err(ParseErrorVersion)
    case Some((v, token)) =>
      match ParseRest(text[|token|..])
      case None => Err(ParseErrorHeaders)
      case Some(rest) => Ok(Layout(m, gap, uri, v, rest))
  }

  lemma VersionSound(m: HttpMethod, gap: string, uri: string, text: string)
    requires ParseVersion(m, gap, uri, text).Ok? && |gap| == 1 && ValidUri(uri)
    ensures var l := ParseVersion(m, gap, uri, text).value;
            ValidLayout(l) && text == AfterUri(l)
  {
    VersionEntry(text);
    var (v, token) := FirstMatch(VERSIONS, text).value;
    RestSound(text[|token|..]);
    assert text == token + text[|token|..];
  }

  lemma Reassemble(text: string, end: nat)
    requires text != "" && OccursAt(text[1..], " ", end)
    ensures text == text[..1] + (text[1..][..end] + (" " + text[1..][end + 1..]))
  {
    var target := text[1..];
    CutOut(target, end, " ");
    assert target == target[..end] + (" " + target[end + 1..]);
  }

  lemma TargetSound(m: HttpMethod, text: string)
    requires ParseTarget(m, text).Ok?
    ensures var l := ParseTarget(m, text).value;
            ValidLayout(l) && text == l.gap + TargetText(l)
  {
    var target := text[1..];
    ContainsChar(target, ' ');
    var end := Find(target, " ", 0).value;
    var gap, uri, after := text[..1], target[..end], target[end + 1..];
    VersionSound(m, gap, uri, after);
    Reassemble(text, end);
  }

  /** An accepted text is the text of its layout. */
  lemma LayoutSound(text: string)
    requires ParseLayout(text).Ok?
    ensures ValidLayout(ParseLayout(text).value) && LayoutText(ParseLayout(text).value) == text
  {
    MethodEntry(text);
    var (m, token) := FirstMatch(METHODS, text).value;
    TargetSound(m, text[|token|..]);
    assert text == token + text[|token|..];
  }

  lemma VersionComplete(l: Layout)
    requires ValidLayout(l)
    ensures ParseVersion(l.method_, l.gap, l.uri, AfterUri(l)) == Ok(l)
  {
    var tail := RestText(l.rest);
    MatchVersion(l.version, tail);
    RestComplete(l.rest);
    assert AfterUri(l)[|VersionText(l.version)|..] == tail;
  }

  lemma TargetComplete(l: Layout)
    requires ValidLayout(l)
    ensures ParseTarget(l.method_, l.gap + TargetText(l)) == Ok(l)
  {
    var text, target := l.gap + TargetText(l), TargetText(l);
    VersionComplete(l);
    assert target[..|l.uri|] == l.uri && target[|l.uri| + 1..] == AfterUri(l);
    FindChar(target, ' ', |l.uri|);
    assert text[1..] == target && text[..1] == l.gap;
  }

  /** The parser accepts the text of every well-formed layout and recovers that layout. */
  lemma LayoutComplete(l: Layout)
    requires ValidLayout(l)
    ensures ParseLayout(LayoutText(l)) == Ok(l)
  {
    var rest := l.gap + TargetText(l);
    MatchMethod(l.method_, rest);
    TargetComplete(l);
    assert LayoutText(l)[|MethodText(l.method_)|..] == rest;
  }

  /** The grammar is exact and unambiguous: parsing is the inverse of writing a layout down. */
  lemma LayoutIff(text: string, l: Layout)
    ensures ParseLayout(text) == Ok(l) <==> ValidLayout(l) && LayoutText(l) == text
  {
    if ParseLayout(text) == Ok(l) {
      LayoutSound(text);
    }
    if ValidLayout(l) && LayoutText(l) == text {
      LayoutComplete(l);
    }
  }

  /** `http_request::parse` as a function of the text. */
  function ParseRequest(text: string): Result<Request> {
    match ParseLayout(text)
    case Err(e) => Err(e)
    case OutOfRange => OutOfRange
    case Ok(l) =>
      LayoutSound(text);
      Ok(Meaning(l))
  }

  function StartLineText(m: HttpMethod, gap: string, uri: string, v: HttpVersion): string {
    MethodText(m) + (gap + (uri + (" " + VersionText(v))))
  }

  /** The text starts with a start line of these parts, and two characters after it, present or not,
      the header lines start at the offset. */
  ghost predicate StartLine(text: string, m: HttpMethod, uri: string, v: HttpVersion, offset: nat) {
    && 2 <= offset <= |text| + 2
    && ValidUri(uri)
    && exists gap: string :: |gap| == 1 && text[..offset - 2] == StartLineText(m, gap, uri, v)
  }

  /** A text determines its start line. */
  lemma StartLineUnique(text: string, m: HttpMethod, uri: string, v: HttpVersion, offset: nat,
                        n: HttpMethod, target: string, w: HttpVersion, other: nat)
    requires StartLine(text, m, uri, v, offset) && StartLine(text, n, target, w, other)
    ensures m == n && uri == target && v == w && offset == other
  {
    hide FirstMatch, Find, StartLine;
    StartLineRead(text, m, uri, v, offset);
    StartLineRead(text, n, target, w, other);
  }

  /** A URI is delimited by the space written after it. */
  lemma UriEnd(uri: string, rest: string)
    requires ValidUri(uri)
    ensures var target := uri + (" " + rest);
            Find(target, " ", 0) == Some(|uri|) && target[..|uri|] == uri && target[|uri| + 1..] == rest
  {
    var target := uri + (" " + rest);
    assert target[..|uri|] == uri;
    FindChar(target, ' ', |uri|);
  }

  lemma AfterToken(token: string, gap: string, target: string)
    requires |gap| == 1
    ensures var text := token + (gap + target);
            |token| + 1 <= |text| && text[|token|..] == gap + target && text[|token| + 1..] == target
  {
  }

  lemma StartLineThen(m: HttpMethod, gap: string, uri: string, v: HttpVersion, after: string)
    ensures StartLineText(m, gap, uri, v) + after == MethodText(m) + (gap + (uri + (" " + (VersionText(v) + after))))
    ensures |StartLineText(m, gap, uri, v)| == |MethodText(m)| + |gap| + |uri| + 1 + |VersionText(v)|
  {
    hide MethodText, VersionText;
    var line := uri + (" " + VersionText(v));
    assert line + after == uri + (" " + (VersionText(v) + after));
    assert (gap + line) + after == gap + (line + after);
    assert (MethodText(m) + (gap + line)) + after == MethodText(m) + ((gap + line) + after);
  }

  lemma TargetRead(text: string, m: HttpMethod, gap: string, uri: string, rest: string)
    requires |gap| == 1 && ValidUri(uri) && text == MethodText(m) + (gap + (uri + (" " + rest)))
    ensures FirstMatch(METHODS, text) == Some((m, MethodText(m)))
    ensures var start := |MethodText(m)| + 1;
            && start + |uri| <= |text| && text[start..start + |uri|] == uri
            && Find(text[start..], " ", 0) == Some(|uri|)
  {
    hide FirstMatch, Find, MethodText, ValidUri;
    var target, start := uri + (" " + rest), |MethodText(m)| + 1;
    MatchMethod(m, gap + target);
    AfterToken(MethodText(m), gap, target);
    UriEnd(uri, rest);
    RestPrefix(text, start, |uri|);
  }

  lemma StartLineRead(text: string, m: HttpMethod, uri: string, v: HttpVersion, offset: nat)
    requires StartLine(text, m, uri, v, offset)
    ensures FirstMatch(METHODS, text) == Some((m, MethodText(m)))
    ensures var start := |MethodText(m)| + 1;
            && start + |uri| <= |text| && text[start..start + |uri|] == uri
            && Find(text[start..], " ", 0) == Some(|uri|)
            && offset == start + |uri| + 1 + |VersionText(v)| + 2
  {
    hide FirstMatch, Find, MethodText, VersionText, ValidUri, StartLine;
    var gap, after := StartLineSplit(text, m, uri, v, offset);
    TargetRead(text, m, gap, uri, VersionText(v) + after);
  }

  lemma StartLineSplit(text: string, m: HttpMethod, uri: string, v: HttpVersion, offset: nat)
    returns (gap: string, after: string)
    requires StartLine(text, m, uri, v, offset)
    ensures |gap| == 1 && ValidUri(uri) && offset == |MethodText(m)| + 1 + |uri| + 1 + |VersionText(v)| + 2
    ensures text == MethodText(m) + (gap + (uri + (" " + (VersionText(v) + after))))
  {
    hide MethodText, VersionText, ValidUri, StartLineText;
    gap :| |gap| == 1 && text[..offset - 2] == StartLineText(m, gap, uri, v);
    after := text[offset - 2..];
    assert text == text[..offset - 2] + after;
    StartLineThen(m, gap, uri, v, after);
  }

  lemma StartLineFound(text: string, uriEnd: nat, end: nat, m: HttpMethod, uri: string, v: HttpVersion)
    requires uriEnd < end <= |text| && TargetAt(text, uriEnd, m, uri) && text[uriEnd + 1..end] == VersionText(v)
    ensures StartLine(text, m, uri, v, end + 2)
  {
    hide MethodText, VersionText;
    var gapAt := |MethodText(m)|;
    var gap := text[gapAt..gapAt + 1];
    assert text[..end] == text[..gapAt] + (gap + (uri + (" " + text[uriEnd + 1..end])));
    assert text[..end] == StartLineText(m, gap, uri, v);
  }

  /** The text starts with this method, up to `end`. */
  predicate MethodAt(text: string, end: nat, m: HttpMethod) {
    end <= |text| && text[..end] == MethodText(m)
  }

  /** The text starts with this method, a skipped character and this URI, up to a space at `end`. */
  predicate TargetAt(text: string, end: nat, m: HttpMethod, uri: string) {
    var start := |MethodText(m)| + 1;
    && start <= end < |text|
    && text[..start - 1] == MethodText(m) && text[start..end] == uri && text[end] == ' '
    && ValidUri(uri)
  }

  lemma MethodStage(request: string)
    ensures var found := FirstMatch(METHODS, request);
            if found.None? then ParseRequest(request) == Err(ParseErrorMethod)
            else
              && ParseLayout(request) == ParseTarget(found.value.0, request[|found.value.1|..])
              && MethodAt(request, |found.value.1|, found.value.0)
  {
    hide FirstMatch, ParseTarget, MethodText;
    MethodEntry(request);
  }

  /** The stages of the parser in terms of offsets into the whole text: first the URI, ... */
  lemma TargetStage(request: string, offset: nat, m: HttpMethod)
    requires MethodAt(request, offset, m) && ParseLayout(request) == ParseTarget(m, request[offset..])
    ensures var start := offset + 1;
            if start >= |request| then ParseRequest(request) == OutOfRange
            else if request[start] != '/' || !Contains(request[start..], " ") then
              ParseRequest(request) == Err(ParseErrorUri)
            else
              var end := start + Find(request[start..], " ", 0).value;
              && end < |request| && TargetAt(request, end, m, request[start..end])
              && ParseLayout(request) ==
                 ParseVersion(m, request[offset..start], request[start..end], request[end + 1..])
  {
    hide ParseVersion, ParseLayout, Find, Contains;
    var start := offset + 1;
    if start < |request| {
      RestOfRest(request, offset, 1);
      assert request[offset..][..1] == request[offset..start];
      TargetEnd(request, start);
    }
  }

  lemma TargetEnd(request: string, start: nat)
    requires start < |request|
    ensures var end := Find(request[start..], " ", 0);
            && (end.Some? <==> Contains(request[start..], " "))
            && (end.Some? ==>
                  && start + end.value < |request| && request[start + end.value] == ' '
                  && request[start..][..end.value] == request[start..start + end.value]
                  && request[start..][end.value + 1..] == request[start + end.value + 1..]
                  && (request[start] == '/' ==> ValidUri(request[start..start + end.value])))
  {
    hide Find;
    ContainsChar(request[start..], ' ');
  }

  /** ... then version, headers and body. */
  lemma VersionStage(request: string, offset: nat, m: HttpMethod, gap: string, uri: string)
    requires 0 < offset <= |request| && |gap| == 1 && TargetAt(request, offset - 1, m, uri)
    requires ParseLayout(request) == ParseVersion(m, gap, uri, request[offset..])
    ensures var found := FirstMatch(VERSIONS, request[offset..]);
            if found.None? then ParseRequest(request) == Err(ParseErrorVersion)
            else
              var end := offset + |found.value.1|;
              && StartLine(request, m, uri, found.value.0, end + 2)
              && ParseRequest(request) == Finish(m, uri, found.value.0, RestAt(request, end + 2))
  {
    hide FirstMatch, ParseRequest, ParseLayout, ParseVersion, Finish, RestAt, ValidUri, MethodText, StartLine;
    VersionOutcome(request, m, gap, uri, request[offset..]);
    var found := FirstMatch(VERSIONS, request[offset..]);
    if found.Some? {
      VersionEntry(request[offset..]);
      RestAfter(request, offset, |found.value.1|, 2);
      RestPrefix(request, offset, |found.value.1|);
      StartLineFound(request, offset - 1, offset + |found.value.1|, m, uri, found.value.0);
    }
  }

  lemma VersionOutcome(request: string, m: HttpMethod, gap: string, uri: string, text: string)
    requires |gap| == 1 && ValidUri(uri)
    requires ParseLayout(request) == ParseVersion(m, gap, uri, text)
    ensures var found := FirstMatch(VERSIONS, text);
            ParseRequest(request) ==
              if found.None? then Err(ParseErrorVersion)
              else Finish(m, uri, found.value.0, RestAt(text[|found.value.1|..], 2))
  {
    hide FirstMatch, ParseLayout, ParseRest, HeadersOf, ReadInto;
    var found := FirstMatch(VERSIONS, text);
    if found.Some? {
      RestContents(text[|found.value.1|..]);
    }
  }

  /** What remains to be read after the start line. */
  function Finish(m: HttpMethod, uri: string, v: HttpVersion, text: string): Result<Request> {
    match ReadInto(map[], text)
    case None => Err(ParseErrorHeaders)
    case Some((headers, body)) => Ok(Request(m, uri, v, headers, body))
  }

  /** A request is the result of parsing exactly when some well-formed layout of the text means it. */
  lemma RequestIff(text: string, r: Request)
    ensures ParseRequest(text) == Ok(r)
       <==> exists l :: ValidLayout(l) && LayoutText(l) == text && Meaning(l) == r
  {
    forall l ensures ParseLayout(text) == Ok(l) <==> ValidLayout(l) && LayoutText(l) == text {
      LayoutIff(text, l);
    }
  }

  /** The layout of the text that is written for a request. */
  function PrintLayout(r: Request): Layout {
    Layout(r.method_, " ", r.uri, r.version, PrintRest(r.headers, r.body))
  }

  /** `http_request::to_string` as a function of the request. */
  function PrintRequest(r: Request): string {
    LayoutText(PrintLayout(r))
  }

  /** The printed text, spelled out. */
  lemma PrintedSpelling(r: Request)
    ensures var fields := InOrder(r.headers);
            PrintRequest(r) ==
              (match r.method_ case Get => "GET" case Head => "HEAD" case Post => "POST")
              + " " + (r.uri + " ") + ("HTTP/1.1" + "\r\n")
              + Flatten(seq(|fields|, i requires 0 <= i < |fields| => fields[i].name + ": " + fields[i].value + "\r\n"))
              + "\r\n" + r.body
  {
    hide PrintRequest, Join, RenderAll, InOrder;
    PrintedText(r);
    LinesSpelled(InOrder(r.headers));
  }

  lemma PrintedText(r: Request)
    ensures PrintRequest(r) ==
              MethodText(r.method_) + " " + (r.uri + " ") + (VersionText(r.version) + CRLF)
              + Join(PrintRest(r.headers, r.body).block.lines) + CRLF + r.body
  {
    hide Join, PrintRest, BlockText;
    PrintedRest(r.headers, r.body);
    var fields := Join(PrintRest(r.headers, r.body).block.lines);
    var start := MethodText(r.method_) + " " + (r.uri + " ") + (VersionText(r.version) + CRLF);
    assert start == MethodText(r.method_) + (" " + (r.uri + (" " + (VersionText(r.version) + CRLF))));
  }
}
