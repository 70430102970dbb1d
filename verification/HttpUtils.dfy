/** The extractors. Each takes the message and an offset into it, and returns what it extracted
    together with the new value of the offset. On failure the offset keeps its value, except that the
    header loop leaves it at the line it rejects. A message is shorter than 2^64 characters, as the
    size of every C++ string is a `size_t`. */
module HttpUtils {
  import opened Strings
  import opened HttpTokens
  import opened HeaderBlock
  import opened HeaderFields

  method TryGetBody(request: string, offset: nat) returns (r: Result<string>, next: nat)
    ensures offset < |request| ==> r == Ok(request[offset..]) && next == |request|
    ensures offset >= |request| ==> r == Err(ParseErrorBody) && next == offset
  {
    if offset >= |request| {
      return Err(ParseErrorBody), offset;
    }
    var body := SubstrFrom(request, offset);
    next := |request|;
    r := Ok(body.value);
  }

  /** Both searches run over the whole rest of the message; the result only depends on the line
      the rest starts with, and on the text after it when the value length wraps around. */
  method TryGetHeader(request: string, offset: nat) returns (r: Result<Field>, next: nat)
    requires |request| < SIZE_MODULUS
    ensures r.Ok? <==> offset <= |request| && FirstLine(request[offset..]).Some?
    ensures r.Ok? ==>
              var rest := request[offset..];
              var end := FirstLine(rest).value;
              && r.value == FieldOf(rest[..end], rest[end + 2..])
              && next == offset + end + 2 <= |request|
    ensures r.Ok? ==>
              var Field(name, value) := r.value;
              var valueAt, lineEnd := offset + |name| + 2, next - 2;
              && offset + |name| < lineEnd < next <= |request|
              && request[lineEnd..next] == "\r\n" && !Contains(request[offset..lineEnd], "\r\n")
              && ':' !in name && request[offset..offset + |name| + 1] == name + ":"
              && value == if valueAt <= lineEnd then request[valueAt..lineEnd] else request[lineEnd + 1..]
    ensures !r.Ok? ==> r == Err(ParseErrorHeaders) && next == offset
  {
    hide FirstLine, FieldOf, Find, SizeSub, Substr;
    var start := offset;
    var end := Find(request, CRLF, start);
    var colon := Find(request, ":", start);
    if offset <= |request| {
      LineIsLocal(request, offset);
    }
    if colon.None? || end.None? || colon.value > end.value {
      return Err(ParseErrorHeaders), offset;
    }
    HeaderAt(request, offset, colon.value, end.value);
    var nameStart, nameEnd := start, colon.value;
    var valueStart, valueEnd := colon.value + 2, end.value;
    next := end.value + |CRLF|;
    var name := Substr(request, nameStart, SizeSub(nameEnd, nameStart));
    var value := Substr(request, valueStart, SizeSub(valueEnd, valueStart));
    r := Ok(Field(name.value, value.value));
    HeaderSpelled(request, offset, end.value);
  }

  /** The field of the line at an offset, cut out of the message. */
  lemma HeaderSpelled(request: string, offset: nat, end: nat)
    requires offset <= end <= |request| && FirstLine(request[offset..]) == Some(end - offset)
    ensures var rest := request[offset..];
            var Field(name, value) := FieldOf(rest[..end - offset], rest[end - offset + 2..]);
            var valueAt := offset + |name| + 2;
            && offset + |name| < end && end + 2 <= |request|
            && request[end..end + 2] == "\r\n" && !Contains(request[offset..end], "\r\n")
            && ':' !in name && request[offset..offset + |name| + 1] == name + ":"
            && value == if valueAt <= end then request[valueAt..end] else request[end + 1..]
  {
    hide FirstLine, FieldOf, Find, Contains;
    var rest := request[offset..];
    FirstLineAt(rest, end - offset);
    var line, after := rest[..end - offset], rest[end - offset + 2..];
    assert line == request[offset..end] && after == request[end + 2..];
    FieldOfLine(line, after);
    CrlfAt(request, end);
    assert request[end..end + 2] == rest[end - offset..end - offset + 2];
    assert request[end + 1..] == "\n" + after;
    var f := FieldOf(line, after);
    LineStart(line, f.name);
    RestPrefix(request, offset, |f.name| + 1);
  }

  lemma FirstLineAt(rest: string, end: nat)
    requires FirstLine(rest) == Some(end)
    ensures end + 2 <= |rest| && rest[end..end + 2] == CRLF
    ensures Contains(rest[..end], ":") && !Contains(rest[..end], CRLF)
  {
    BeforeFirstCrlf(rest, end);
  }

  lemma LineStart(line: string, name: string)
    requires name + ":" <= line
    ensures |name| < |line| && line[..|name| + 1] == name + ":"
  {
  }

  lemma HeaderAt(request: string, offset: nat, colon: nat, end: nat)
    requires |request| < SIZE_MODULUS && offset <= colon <= end <= |request| && OccursAt(request, CRLF, end)
    requires FirstLine(request[offset..]) == Some(end - offset)
    requires Find(request[offset..][..end - offset], ":", 0) == Some(colon - offset)
    ensures end + 2 <= |request| && colon < end
    ensures var rest := request[offset..];
            var name := Substr(request, offset, SizeSub(colon, offset));
            var value := Substr(request, colon + 2, SizeSub(end, colon + 2));
            && name.Some? && value.Some?
            && Field(name.value, value.value) == FieldOf(rest[..end - offset], rest[end - offset + 2..])
  {
    assert request[offset..][..end - offset] == request[offset..end];
    assert request[offset..][end - offset + 2..] == request[end + 2..];
    HeaderValue(request, offset, colon, end);
  }

  /** The comparison of the two search results asks whether the line has a colon of its own. */
  lemma LineIsLocal(request: string, offset: nat)
    requires offset <= |request|
    ensures var rest := request[offset..];
            var end, colon := Find(request, CRLF, offset), Find(request, ":", offset);
            && (FirstLine(rest).Some? <==> end.Some? && colon.Some? && colon.value <= end.value)
            && (FirstLine(rest).Some? ==>
                  && end.value == offset + FirstLine(rest).value
                  && Find(rest[..FirstLine(rest).value], ":", 0) == Some(colon.value - offset))
  {
    var rest := request[offset..];
    FindInSuffix(request, CRLF, offset);
    FindInSuffix(request, ":", offset);
    var end := Find(rest, CRLF, 0);
    if end.Some? {
      ColonInPrefix(rest, end.value);
    }
  }

  lemma ColonInPrefix(rest: string, end: nat)
    requires OccursAt(rest, CRLF, end)
    ensures var colon := Find(rest, ":", 0);
            && (Contains(rest[..end], ":") <==> colon.Some? && colon.value <= end)
            && (Contains(rest[..end], ":") ==> Find(rest[..end], ":", 0) == colon)
  {
    CrlfAt(rest, end);
    ContainsChar(rest, ':');
    ContainsChar(rest[..end], ':');
    var colon := Find(rest, ":", 0);
    if colon.Some? && colon.value <= end {
      assert rest[..end][..colon.value] == rest[..colon.value];
      FindChar(rest[..end], ':', colon.value);
    }
  }

  /** What the two `substr` calls return, with `size_t` wrap-around, is the field of the line. */
  lemma HeaderValue(request: string, offset: nat, colon: nat, end: nat)
    requires |request| < SIZE_MODULUS && offset <= colon <= end && OccursAt(request, CRLF, end)
    requires Find(request[offset..end], ":", 0) == Some(colon - offset)
    ensures Substr(request, offset, SizeSub(colon, offset)) == Some(request[offset..colon])
    ensures colon < end
    ensures var value := Substr(request, colon + 2, SizeSub(end, colon + 2));
            && value.Some?
            && FieldOf(request[offset..end], request[end + 2..]) == Field(request[offset..colon], value.value)
  {
    hide Find, SizeSub, Substr;
    var line := request[offset..end];
    assert NameOf(line) == request[offset..colon];
    SubstrBetween(request, offset, colon);
    if Spaced(line) {
      SubstrBetween(request, colon + 2, end);
      assert line[colon - offset + 2..] == request[colon + 2..end];
    } else {
      SubstrWrapped(request, colon + 2, end);
      CrlfAt(request, end);
      assert request[end + 1..] == "\n" + request[end + 2..];
    }
  }

  /** The header loop. Whatever the offset, it computes the header map of the block that the rest of
      the message is, and leaves the offset at its body; or it accepts some lines and leaves the
      offset at the first remainder that does not start with one. */
  method TryGetHeaders(request: string, offset: nat) returns (r: Result<Headers>, next: nat)
    requires |request| < SIZE_MODULUS
    ensures match ReadInto(map[], RestAt(request, offset))
            case None => r == Err(ParseErrorHeaders)
            case Some((headers, body)) => r == Ok(headers) && RestAt(request, next) == body
    ensures r.Err? ==>
              exists lines: seq<string> :: LeadsToBad(lines, RestAt(request, next), RestAt(request, offset))
    ensures if offset <= |request| then offset <= next <= |request| else next == offset
  {
    hide ReadInto, FirstLine, FieldOf, Find, Contains, LinesRead, LeadsToBad, RestAt;
    var headers: Headers := map[];
    next := offset;
    ghost var lines: seq<string>, all := [], RestAt(request, offset);
    NothingRead(all);
    while true
      invariant if offset <= |request| then offset <= next <= |request| else next == offset
      invariant ReadInto(headers, RestAt(request, next)) == ReadInto(map[], all)
      invariant LinesRead(lines, RestAt(request, next), all)
      decreases |RestAt(request, next)|
    {
      StopAt(request, next, headers);
      if !(next < |request|) {
        return Ok(headers), next;
      }
      if CRLF <= SubstrFrom(request, next).value {
        next := next + |CRLF|;
        return Ok(headers), next;
      }
      LineAt(request, next, headers, lines, all);
      ghost var before := next;
      var header;
      header, next := TryGetHeader(request, next);
      if header.Err? {
        return Err(header.error), next;
      }
      lines := lines + [request[before..next - 2]];
      headers := headers[header.value.name := header.value.value];
    }
  }

  /** The two ways out of the loop in terms of the whole message. */
  lemma StopAt(request: string, offset: nat, headers: Headers)
    ensures offset >= |request| ==> ReadInto(headers, RestAt(request, offset)) == Some((headers, ""))
    ensures offset < |request| && CRLF <= request[offset..] ==>
              ReadInto(headers, RestAt(request, offset)) == Some((headers, RestAt(request, offset + 2)))
  {
    hide ReadInto;
    ReadEnd(headers, RestAt(request, offset));
    if offset < |request| && CRLF <= request[offset..] {
      RestAtRest(request, offset, 2);
    }
  }

  /** One iteration of the loop in terms of the whole message. */
  lemma LineAt(request: string, offset: nat, headers: Headers, lines: seq<string>, all: string)
    requires offset < |request| && !(CRLF <= request[offset..]) && LinesRead(lines, RestAt(request, offset), all)
    ensures var rest := request[offset..];
            match FirstLine(rest)
            case None =>
              ReadInto(headers, RestAt(request, offset)).None? && LeadsToBad(lines, RestAt(request, offset), all)
            case Some(end) =>
              var next := offset + end + 2;
              var field := FieldOf(rest[..end], rest[end + 2..]);
              && next <= |request|
              && ReadInto(headers, RestAt(request, offset))
                 == ReadInto(headers[field.name := field.value], RestAt(request, next))
              && LinesRead(lines + [request[offset..next - 2]], RestAt(request, next), all)
  {
    hide ReadInto, FirstLine, FieldOf, LinesRead, LeadsToBad;
    var rest := request[offset..];
    ReadStep(headers, rest);
    NextLine(lines, rest, all);
    if FirstLine(rest).Some? {
      var end := FirstLine(rest).value;
      RestOfRest(request, offset, end + 2);
      assert rest[..end] == request[offset..offset + end];
    }
  }

  method TryGetMethod(request: string, offset: nat) returns (r: Result<HttpMethod>, next: nat)
    ensures r.OutOfRange? <==> offset > |request|
    ensures offset <= |request| ==>
              match FirstMatch(METHODS, request[offset..])
              case None => r == Err(ParseErrorMethod) && next == offset
              case Some((m, text)) => r == Ok(m) && next == offset + |text| <= |request|
    ensures offset <= |request| ==>
              var rest := request[offset..];
              match r
              case Ok(Get) => "GET" <= rest && next == offset + 3
              case Ok(Head) => "HEAD" <= rest && next == offset + 4
              case Ok(Post) => "POST" <= rest && next == offset + 4
              case Err(e) =>
                && e == ParseErrorMethod && next == offset
                && !("GET" <= rest) && !("HEAD" <= rest) && !("POST" <= rest)
              case OutOfRange => false
  {
    hide FirstMatch, StatusText;
    if offset <= |request| {
      MethodIff(request[offset..]);
    }
    next := offset;
    var i := 0;
    while i < |METHODS|
      invariant i <= |METHODS| && next == offset
      invariant i > 0 ==> offset <= |request|
      invariant offset <= |request| ==>
                  FirstMatch(METHODS, request[offset..]) == FirstMatch(METHODS[i..], request[offset..])
    {
      var rest := SubstrFrom(request, offset);
      if rest.None? {
        return OutOfRange, next;
      }
      FirstMatchStep(METHODS[i..], rest.value);
      if METHODS[i].1 <= rest.value {
        next := offset + |METHODS[i].1|;
        return Ok(METHODS[i].0), next;
      }
      i := i + 1;
    }
    if offset <= |request| {
      FirstMatchNone(METHODS[i..], request[offset..]);
    }
    r := Err(ParseErrorMethod);
  }

  method TryGetStatus(response: string, offset: nat) returns (r: Result<HttpStatus>, next: nat)
    ensures r.OutOfRange? <==> offset > |response|
    ensures offset <= |response| ==>
              match FirstMatch(STATUSES, response[offset..])
              case None => r == Err(ParseErrorStatus) && next == offset
              case Some((s, text)) => r == Ok(s) && next == offset + |text| <= |response|
    ensures offset <= |response| ==>
              var rest := response[offset..];
              match r
              case Ok(StatusOk) => "200 OK" <= rest && next == offset + 6
              case Ok(BadRequest) => "400 Bad Request" <= rest && next == offset + 15
              case Ok(NotFound) => "404 Not Found" <= rest && next == offset + 13
              case Ok(InternalServerError) => "500 Internal Server Error" <= rest && next == offset + 25
              case Err(e) =>
                && e == ParseErrorStatus && next == offset
                && !("200 OK" <= rest) && !("400 Bad Request" <= rest) && !("404 Not Found" <= rest)
                && !("500 Internal Server Error" <= rest)
              case OutOfRange => false
  {
    hide FirstMatch, StatusText;
    if offset <= |response| {
      StatusIff(response[offset..]);
    }
    next := offset;
    var i := 0;
    while i < |STATUSES|
      invariant i <= |STATUSES| && next == offset
      invariant i > 0 ==> offset <= |response|
      invariant offset <= |response| ==>
                  FirstMatch(STATUSES, response[offset..]) == FirstMatch(STATUSES[i..], response[offset..])
    {
      var rest := SubstrFrom(response, offset);
      if rest.None? {
        return OutOfRange, next;
      }
      FirstMatchStep(STATUSES[i..], rest.value);
      if STATUSES[i].1 <= rest.value {
        next := offset + |STATUSES[i].1|;
        return Ok(STATUSES[i].0), next;
      }
      i := i + 1;
    }
    if offset <= |response| {
      FirstMatchNone(STATUSES[i..], response[offset..]);
    }
    r := Err(ParseErrorStatus);
  }

  method TryGetVersion(request: string, offset: nat) returns (r: Result<HttpVersion>, next: nat)
    ensures r.OutOfRange? <==> offset > |request|
    ensures offset <= |request| ==>
              match FirstMatch(VERSIONS, request[offset..])
              case None => r == Err(ParseErrorVersion) && next == offset
              case Some((v, text)) => r == Ok(v) && next == offset + |text| <= |request|
    ensures offset <= |request| ==>
              var rest := request[offset..];
              match r
              case Ok(Http11) => "HTTP/1.1" <= rest && next == offset + 8
              case Err(e) => e == ParseErrorVersion && next == offset && !("HTTP/1.1" <= rest)
              case OutOfRange => false
  {
    hide FirstMatch, StatusText;
    if offset <= |request| {
      VersionFound(request[offset..]);
    }
    next := offset;
    var i := 0;
    while i < |VERSIONS|
      invariant i <= |VERSIONS| && next == offset
      invariant i > 0 ==> offset <= |request|
      invariant offset <= |request| ==>
                  FirstMatch(VERSIONS, request[offset..]) == FirstMatch(VERSIONS[i..], request[offset..])
    {
      var rest := SubstrFrom(request, offset);
      if rest.None? {
        return OutOfRange, next;
      }
      FirstMatchStep(VERSIONS[i..], rest.value);
      if VERSIONS[i].1 <= rest.value {
        next := offset + |VERSIONS[i].1|;
        return Ok(VERSIONS[i].0), next;
      }
      i := i + 1;
    }
    if offset <= |request| {
      FirstMatchNone(VERSIONS[i..], request[offset..]);
    }
    r := Err(ParseErrorVersion);
  }

  /** The URI runs to the first space; the offset is left at that space. */
  method TryGetUri(request: string, offset: nat) returns (r: Result<string>, next: nat)
    ensures r.OutOfRange? <==> offset >= |request|
    ensures r.Ok? <==> offset < |request| && request[offset] == '/' && Contains(request[offset..], " ")
    ensures r.Ok? ==>
              && next == offset + Find(request[offset..], " ", 0).value < |request|
              && r.value == request[offset..next]
    ensures !r.Ok? ==> next == offset && (r.Err? ==> r.error == ParseErrorUri)
  {
    next := offset;
    if offset >= |request| {
      return OutOfRange, next;
    }
    if request[offset] != '/' {
      return Err(ParseErrorUri), next;
    }
    var start := offset;
    var end := Find(request, " ", start);
    FindInSuffix(request, " ", start);
    if end.None? {
      return Err(ParseErrorUri), next;
    }
    next := end.value;
    var uri := Substr(request, start, end.value - start);
    r := Ok(uri.value);
  }
}
