/** What printing and parsing responses do to each other. */
module ResponseTheorems {
  import opened HttpTokens
  import opened HeaderBlock
  import opened HeaderFields
  import opened HeaderOrder
  import opened HeaderSafety
  import opened MessageRest
  import opened ResponseGrammar

  predicate SafeResponse(r: Response) {
    SafeNames(r.headers) && SafeValues(r.headers)
  }

  predicate RoundTrips(r: Response) {
    ParseResponse(PrintResponse(r)) == Ok(r)
  }

  /** Every header line of an accepted text is spaced. */
  predicate SpacedText(text: string) {
    ParseLayout(text).Ok? &&
    (LayoutSound(text); AllSpaced(ParseLayout(text).value.rest.block.lines))
  }

  /** The text is accepted, and each name's deciding header line is spaced or ends the text. */
  predicate CleanText(text: string) {
    ParseLayout(text).Ok? &&
    (LayoutSound(text); DecidersClean(ParseLayout(text).value.rest.block))
  }

  /** A safe response with any status of the table is recovered from its text, whatever its body. */
  lemma RoundTrip(r: Response)
    requires SafeResponse(r)
    ensures RoundTrips(r) && SpacedText(PrintResponse(r))
  {
    PrintedHeaders(r.headers, r.body);
    LayoutComplete(PrintLayout(r));
  }

  /** A response that was read has safe names always, and safe values exactly when each deciding line
      of its text is clean. */
  lemma ReadResponse(text: string)
    requires ParseResponse(text).Ok?
    ensures var r := ParseResponse(text).value;
            && SafeNames(r.headers)
            && (SafeResponse(r) <==> CleanText(text))
            && (SpacedText(text) ==> CleanText(text))
  {
    LayoutSound(text);
    var block := ParseLayout(text).value.rest.block;
    ReadNamesSafe(block);
    ReadValuesSafeIff(block);
  }

  /** The safe responses are exactly those that are recovered from a text whose lines are spaced. Safe
      names are necessary in any case, and sufficient for CRLF-free values. */
  lemma RoundTripExact(r: Response)
    ensures SafeResponse(r) <==> RoundTrips(r) && SpacedText(PrintResponse(r))
    ensures RoundTrips(r) ==> SafeNames(r.headers)
    ensures SafeValues(r.headers) ==> (RoundTrips(r) <==> SafeNames(r.headers))
  {
    if SafeResponse(r) {
      RoundTrip(r);
    }
    if RoundTrips(r) {
      ReadResponse(PrintResponse(r));
    }
  }

  /** Printing what was read, and reading that, changes nothing, and the printed text has spaced lines
      only, exactly when the deciding header lines of the text are clean. */
  lemma Canonicalisation(text: string)
    ensures var r := ParseResponse(text);
            CleanText(text) <==> r.Ok? && RoundTrips(r.value) && SpacedText(PrintResponse(r.value))
  {
    if ParseResponse(text).Ok? {
      ReadResponse(text);
      RoundTripExact(ParseResponse(text).value);
    }
  }

  /** Different safe responses have different texts. */
  lemma PrintInjective(a: Response, b: Response)
    requires SafeResponse(a) && SafeResponse(b) && PrintResponse(a) == PrintResponse(b)
    ensures a == b
  {
    RoundTrip(a);
    RoundTrip(b);
  }

  lemma HeadWithBody(l: Layout, body: string)
    requires ValidLayout(l) && IsHead(l.rest)
    ensures var other := l.(rest := WithBody(l.rest, body));
            ValidLayout(other) && LayoutText(other) == LayoutText(l) + body
  {
    hide StatusText, RestText;
    var other := l.(rest := WithBody(l.rest, body));
    BodyAppended(l.rest, body);
    assert AfterGap(other) == AfterGap(l) + body;
  }

  lemma OtherBody(head: string, l: Layout, body: string)
    requires ParseLayout(head) == Ok(l) && ValidLayout(l) && IsHead(l.rest)
    ensures ValidBlock(l.rest.block.(body := body))
    ensures ParseResponse(head + body) ==
              Ok(Meaning(l).(body := body, headers := HeadersOf(l.rest.block.(body := body))))
  {
    LayoutSound(head);
    HeadWithBody(l, body);
    LayoutComplete(l.(rest := WithBody(l.rest, body)));
  }

  /** Whatever bytes follow the blank line come back verbatim as the body and change nothing else,
      exactly when every deciding header line of the head is spaced. */
  lemma BodyIndependentIff(head: string, l: Layout)
    requires ParseLayout(head) == Ok(l) && ValidLayout(l) && IsHead(l.rest)
    ensures (forall body: string :: ParseResponse(head + body) == Ok(Meaning(l).(body := body)))
       <==> DecidersSpaced(l.rest.block)
  {
    BodyIrrelevantIff(l.rest.block);
    forall body: string
      ensures ParseResponse(head + body) == Ok(Meaning(l).(body := body))
         <==> HeadersOf(l.rest.block.(body := body)) == HeadersOf(l.rest.block)
    {
      OtherBody(head, l, body);
    }
  }

  /** From header lines that are all spaced, each name gets the value of its last line; repetitions,
      separators and the characters after the colons are free. */
  lemma ReadFields(l: Layout)
    requires ValidLayout(l) && AllSpaced(l.rest.block.lines)
    ensures var fields := SpacedFields(l.rest.block.lines);
            && ParseResponse(LayoutText(l)) == Ok(Meaning(l).(headers := Assign(map[], fields)))
            && LastWins(fields, Meaning(l).headers)
  {
    LayoutComplete(l);
    SpacedHeaders(l.rest);
  }

  /** The same status line and body, and the same header lines in some order; the skipped characters
      may differ. */
  predicate SameUpToOrder(k: Layout, l: Layout) {
    k.version == l.version && k.status == l.status && |l.gap| == 1 && Rearranged(k.rest, l.rest)
  }

  /** Every order of the header lines gives the same response exactly when the lines are free of order;
      if their names are pairwise different, this says that there is at most one line, or that all are
      spaced. */
  lemma LineOrderIff(k: Layout)
    requires ValidLayout(k)
    ensures (forall l | SameUpToOrder(k, l) :: ParseResponse(LayoutText(l)) == Ok(Meaning(k)))
       <==> OrderFree(k.rest.block)
    ensures DistinctNames(k.rest.block) ==>
              (OrderFree(k.rest.block) <==> |k.rest.block.lines| <= 1 || AllSpaced(k.rest.block.lines))
  {
    hide HeadersOf, OrderFree, DistinctNames, AllSpaced, LayoutText, ParseResponse, Rearranged;
    var b := k.rest.block;
    OrderFreeIff(b);
    forall l | SameUpToOrder(k, l)
      ensures ValidLayout(l)
      ensures ParseResponse(LayoutText(l)) == Ok(Meaning(k)) <==> HeadersOf(l.rest.block) == HeadersOf(b)
    {
      ReorderedMeaning(k, l);
    }
    if OrderFree(b) {
      forall l | SameUpToOrder(k, l) ensures HeadersOf(l.rest.block) == HeadersOf(b) {
        SameBlock(k, l);
        OrderIgnored(b, l.rest.block);
      }
    }
    if forall l | SameUpToOrder(k, l) :: ParseResponse(LayoutText(l)) == Ok(Meaning(k)) {
      forall c: Block | Permuted(b, c) ensures ValidBlock(c) && HeadersOf(c) == HeadersOf(b) {
        RearrangedBlock(k.rest, c);
        assert SameUpToOrder(k, k.(rest := k.rest.(block := c)));
      }
    }
  }

  lemma SameBlock(k: Layout, l: Layout)
    requires SameUpToOrder(k, l)
    ensures Permuted(k.rest.block, l.rest.block)
  {
  }

  lemma ReorderedMeaning(k: Layout, l: Layout)
    requires ValidLayout(k) && SameUpToOrder(k, l)
    ensures ValidLayout(l) && ParseLayout(LayoutText(l)) == Ok(l)
    ensures ParseResponse(LayoutText(l)) == Ok(Meaning(k)) <==> HeadersOf(l.rest.block) == HeadersOf(k.rest.block)
  {
    hide HeadersOf, ParseLayout, LayoutText;
    RearrangedValid(k.rest, l.rest);
    LayoutComplete(l);
  }

  /** Accepted texts that differ only in the characters that are skipped and in the order of spaced
      header lines with pairwise different names. */
  predicate SpacedReordering(s: string, t: string) {
    && ParseLayout(s).Ok? && ParseLayout(t).Ok?
    && SameUpToOrder(ParseLayout(s).value, ParseLayout(t).value)
    && SpacedText(s)
    && (LayoutSound(s); DistinctNames(ParseLayout(s).value.rest.block))
  }

  /** Such texts are read as the same response. */
  lemma FieldOrderIrrelevant(s: string, t: string)
    ensures SpacedReordering(s, t) ==> ParseResponse(s) == ParseResponse(t)
  {
    hide ParseLayout, LayoutText, HeadersOf, OrderFree;
    if SpacedReordering(s, t) {
      var k, l := ParseLayout(s).value, ParseLayout(t).value;
      LayoutSound(s);
      LayoutSound(t);
      DistinctOrderFree(k.rest.block);
      SameBlock(k, l);
      OrderIgnored(k.rest.block, l.rest.block);
      ReorderedMeaning(k, l);
    }
  }

  /** Every byte of an accepted text is accounted for: tokens, skipped separators, header lines with
      their CRLF, blank line and body add up to the input. */
  lemma ByteAccounting(text: string)
    requires ParseResponse(text).Ok?
    ensures var r := ParseResponse(text).value;
            ParseLayout(text).Ok? &&
            var rest := ParseLayout(text).value.rest;
            && |text| == |VersionText(r.version)| + 1 + |StatusText(r.status)| + |rest.eol|
                         + TotalLength(rest.block.lines) + (if rest.block.blank then 2 else 0) + |r.body|
            && (|rest.eol| == 2 || (rest.block.lines == [] && !rest.block.blank && r.body == ""))
  {
    hide RestText, HeadersOf, ParseLayout, StatusText;
    LayoutSound(text);
    RestLength(ParseLayout(text).value.rest);
  }

  /** The parser is total up to the bare version token, on which it throws, and says which part it
      could not read. */
  lemma ParseDomain(text: string)
    ensures ParseResponse(text).OutOfRange? <==> text == "HTTP/1.1"
    ensures ParseResponse(text) == Err(ParseErrorVersion) <==> !("HTTP/1.1" <= text)
    ensures ParseResponse(text).Err? ==>
              ParseResponse(text).error in {ParseErrorVersion, ParseErrorStatus, ParseErrorHeaders}
  {
    VersionEntry(text);
    if "HTTP/1.1" <= text {
      assert text == "HTTP/1.1" + text[8..];
      MatchVersion(Http11, text[8..]);
    }
  }

  /** The status of a response is the one whose code and reason follow the version and one character. */
  lemma StatusTokens(text: string)
    requires ParseResponse(text).Ok?
    ensures "HTTP/1.1" <= text && |text| > 9
    ensures var s, rest := ParseResponse(text).value.status, text[9..];
            && ("200 OK" <= rest <==> s == StatusOk)
            && ("400 Bad Request" <= rest <==> s == BadRequest)
            && ("404 Not Found" <= rest <==> s == NotFound)
            && ("500 Internal Server Error" <= rest <==> s == InternalServerError)
  {
    hide FirstMatch, ParseLayout, HeadersOf, StatusText, RestText;
    LayoutSound(text);
    var l := ParseLayout(text).value;
    var after := StatusText(l.status) + RestText(l.rest);
    assert text == "HTTP/1.1" + (l.gap + after) && text[9..] == after;
    MatchStatus(l.status, RestText(l.rest));
    StatusIff(after);
    StatusSpelling(l.status);
  }

  /** The text is put together from these parts, spelled out, and its header lines denote the headers. */
  ghost predicate WrittenAs(text: string, r: Response, gap: string, rest: Rest) {
    && |gap| == 1 && ValidRest(rest)
    && text == "HTTP/1.1"
               + (gap + ((match r.status
                          case StatusOk => "200 OK"
                          case BadRequest => "400 Bad Request"
                          case NotFound => "404 Not Found"
                          case InternalServerError => "500 Internal Server Error") + RestText(rest)))
    && r.body == rest.block.body && Denotes(rest.block, r.headers)
  }

  /** What parsing returns, part by part, for every text and every response. */
  lemma ParsedParts(text: string, r: Response)
    ensures ParseResponse(text) == Ok(r) <==> exists gap: string, rest: Rest :: WrittenAs(text, r, gap, rest)
  {
    hide ParseLayout, Denotes, RestText, HeadersOf, ValidRest, StatusText;
    StatusSpelling(r.status);
    if ParseResponse(text) == Ok(r) {
      LayoutSound(text);
      var l := ParseLayout(text).value;
      BlockValid(l.rest);
      HeadersDenoted(l.rest.block);
      assert WrittenAs(text, r, l.gap, l.rest);
    }
    forall gap: string, rest: Rest | WrittenAs(text, r, gap, rest) ensures ParseResponse(text) == Ok(r) {
      var l := Layout(r.version, gap, r.status, rest);
      BlockValid(rest);
      HeadersDenoted(rest.block);
      DenotedUnique(rest.block, HeadersOf(rest.block), r.headers);
      assert LayoutText(l) == text;
      LayoutComplete(l);
    }
  }

  lemma VersionRead(v: HttpVersion, rest: string)
    ensures ParseLayout(VersionText(v) + rest) == ParseStatus(v, rest)
  {
    hide FirstMatch, ParseStatus;
    MatchVersion(v, rest);
    assert (VersionText(v) + rest)[|VersionText(v)|..] == rest;
  }

  /** With the version and one more character read, the status is rejected exactly when the rest does
      not start with the code and reason of any status. */
  lemma StatusError(v: HttpVersion, gap: string, rest: string)
    requires |gap| == 1
    ensures ParseResponse(VersionText(v) + (gap + rest)) == Err(ParseErrorStatus)
       <==> forall s: HttpStatus :: !(StatusText(s) <= rest)
    ensures ParseResponse(VersionText(v) + (gap + rest)) == Err(ParseErrorStatus)
       <==> && !("200 OK" <= rest) && !("400 Bad Request" <= rest) && !("404 Not Found" <= rest)
            && !("500 Internal Server Error" <= rest)
  {
    hide FirstMatch, ParseRest, ParseLayout, StatusText;
    StatusIff(rest);
    VersionRead(v, gap + rest);
    assert (gap + rest)[1..] == rest;
    StatusEntry(rest);
    forall s: HttpStatus | StatusText(s) <= rest ensures FirstMatch(STATUSES, rest).Some? {
      MatchStatus(s, rest[|StatusText(s)|..]);
      assert rest == StatusText(s) + rest[|StatusText(s)|..];
    }
  }

  /** With the whole status line read, the headers are rejected exactly when, after some well-formed
      lines, there is neither the end of the text, nor a blank line, nor a line with a colon. */
  lemma HeadersError(v: HttpVersion, gap: string, s: HttpStatus, eol: string, rest: string)
    requires |gap| == 1 && |eol| == 2
    ensures ParseResponse(VersionText(v) + (gap + (StatusText(s) + (eol + rest)))) == Err(ParseErrorHeaders)
       <==> exists lines: seq<string>, bad: string :: LeadsToBad(lines, bad, rest)
  {
    hide LeadsToBad, ParseRest, FirstMatch, ParseLayout, StatusText;
    var after := StatusText(s) + (eol + rest);
    VersionRead(v, gap + after);
    assert (gap + after)[1..] == after;
    MatchStatus(s, eol + rest);
    assert after[|StatusText(s)|..] == eol + rest;
    RestRejectedIff(eol, rest);
  }
}
