/** What printing and parsing requests do to each other. */
module RequestTheorems {
  import opened Strings
  import opened HttpTokens
  import opened HeaderBlock
  import opened HeaderFields
  import opened HeaderOrder
  import opened HeaderSafety
  import opened MessageRest
  import opened OrderedMap
  import opened RequestGrammar

  predicate SafeRequest(r: Request) {
    ValidUri(r.uri) && SafeNames(r.headers) && SafeValues(r.headers)
  }

  predicate RoundTrips(r: Request) {
    ParseRequest(PrintRequest(r)) == Ok(r)
  }

  /** Every header line of an accepted text is spaced. */
  predicate SpacedText(text: string) {
    ParseLayout(text).Ok? &&
    (LayoutSound(text); AllSpaced(ParseLayout(text).value.rest.block.lines))
  }

  /** The text is accepted, and each name's deciding header line is spaced or ends the text. */
  predicate CleanText(text: string) {
    ParseLayout(text).Ok? &&
    (LayoutSound(text); DecidersClean(ParseLayout(text).value.rest.block))
  }

  lemma SafeLayout(r: Request)
    requires SafeRequest(r)
    ensures ParseLayout(PrintRequest(r)) == Ok(PrintLayout(r))
    ensures ValidLayout(PrintLayout(r)) && Meaning(PrintLayout(r)) == r
    ensures SpacedText(PrintRequest(r))
  {
    PrintedHeaders(r.headers, r.body);
    LayoutComplete(PrintLayout(r));
  }

  /** A safe request is recovered from its text, whatever its body. */
  lemma RoundTrip(r: Request)
    requires SafeRequest(r)
    ensures RoundTrips(r)
  {
    SafeLayout(r);
  }

  /** What a request that was read looks like: its URI and its header names are always safe, and its
      values exactly when each deciding line is clean. */
  lemma ReadRequest(text: string)
    requires ParseRequest(text).Ok?
    ensures ParseLayout(text).Ok? && ValidLayout(ParseLayout(text).value)
    ensures var r := ParseRequest(text).value;
            && r == Meaning(ParseLayout(text).value)
            && ValidUri(r.uri) && SafeNames(r.headers)
            && (SafeRequest(r) <==> DecidersClean(ParseLayout(text).value.rest.block))
  {
    LayoutSound(text);
    var block := ParseLayout(text).value.rest.block;
    ReadNamesSafe(block);
    ReadValuesSafeIff(block);
  }

  /** The conditions on URI and names are necessary for the round trip, and for CRLF-free values they
      are sufficient. */
  lemma RoundTripIff(r: Request)
    ensures RoundTrips(r) ==> ValidUri(r.uri) && SafeNames(r.headers)
    ensures SafeValues(r.headers) ==> (RoundTrips(r) <==> ValidUri(r.uri) && SafeNames(r.headers))
  {
    if RoundTrips(r) {
      ReadRequest(PrintRequest(r));
    }
    if SafeRequest(r) {
      RoundTrip(r);
    }
  }

  /** Without a condition on the values: the safe requests are exactly those that are recovered from
      a text all of whose header lines are spaced. */
  lemma RoundTripExact(r: Request)
    ensures SafeRequest(r) <==> RoundTrips(r) && SpacedText(PrintRequest(r))
  {
    if SafeRequest(r) {
      SafeLayout(r);
    }
    if RoundTrips(r) && SpacedText(PrintRequest(r)) {
      ReadRequest(PrintRequest(r));
    }
  }

  /** The condition on values is not necessary by itself. This request has a CRLF in a value, so its
      text reads as two header lines; the second has nothing after its colon, its value wraps around
      to the rest of the text, and that happens to be the value that was written. */
  function Quine(name: string): Request {
    Request(Get, "/", Http11, map[name := "\n" + CRLF + (name + ":")], name + ":")
  }

  lemma UnsafeValueRecovered(name: string)
    requires SafeName(name)
    ensures !SafeRequest(Quine(name)) && RoundTrips(Quine(name))
  {
    var r, block := Quine(name), TwoLines(name);
    HasCrlf("\n", name + ":");
    var l := Layout(Get, " ", "/", Http11, Rest(CRLF, block));
    TwoLinesRead(name);
    QuineText(name);
    assert LayoutText(l) == PrintRequest(r);
    LayoutComplete(l);
  }

  function TwoLines(name: string): Block {
    Block([Render(Field(name, "\n")), name + ":"], true, name + ":")
  }

  lemma QuineText(name: string)
    ensures BlockText(PrintBlock(Quine(name).headers, Quine(name).body)) == BlockText(TwoLines(name))
  {
    var first, second := Render(Field(name, "\n")), name + ":";
    var value := "\n" + CRLF + second;
    var line := Render(Field(name, value));
    InOrderSingle(name, value);
    assert RenderAll([Field(name, value)]) == [line];
    assert line == first + CRLF + second;
    JoinTwo(first, second);
    JoinAppend([], line);
    assert [] + [line] == [line];
  }

  lemma JoinTwo(first: string, second: string)
    ensures Join([first, second]) == first + CRLF + second + CRLF
  {
    JoinAppend([], first);
    JoinAppend([first], second);
    assert [] + [first] == [first];
    assert [first] + [second] == [first, second];
  }

  lemma TwoLinesRead(name: string)
    requires SafeName(name)
    ensures ValidBlock(TwoLines(name)) && HeadersOf(TwoLines(name)) == Quine(name).headers
  {
    hide Join, FieldOf, Assign, FieldsOf;
    var block, fields := TwoLines(name), [Field(name, "\n"), Field(name, "\n" + CRLF + (name + ":"))];
    RenderedLine(fields[0], Join(block.lines[1..]) + Tail(block));
    BareLine(name, Tail(block));
    assert block.lines[2..] == [];
    NothingBefore(Tail(block));
    assert IsLine(block.lines[0]) && IsLine(block.lines[1]);
    FieldAt(block.lines, Tail(block), 0);
    FieldAt(block.lines, Tail(block), 1);
    assert FieldsOf(block.lines, Tail(block)) == fields by {
      assert "\n" + Tail(block) == fields[1].value;
    }
    SecondWins(fields[0], fields[1]);
  }

  lemma SecondWins(first: Field, second: Field)
    requires first.name == second.name
    ensures Assign(map[], [first, second]) == map[first.name := second.value]
  {
    var one: Headers := map[first.name := first.value];
    assert [first, second][1..] == [second];
    assert Assign(map[], [first, second]) == Assign(one, [second]);
    assert Assign(one, [second]) == one[second.name := second.value];
  }

  lemma NothingBefore(tail: string)
    ensures Join([]) + tail == tail
  {
  }

  /** A line that ends in its colon takes the LF of its own CRLF and all that follows as its value. */
  lemma BareLine(name: string, after: string)
    requires SafeName(name)
    ensures IsLine(name + ":") && FieldOf(name + ":", after) == Field(name, "\n" + after)
  {
    var line := name + ":";
    RenderedLine(Field(name, ""), "");
    assert "" + line + " " == Render(Field(name, ""));
    PartFree("", line, " ", CRLF);
    ContainsChar(name, ':');
    assert line[..|name|] == name;
    FindChar(line, ':', |name|);
  }

  lemma InOrderSingle(name: string, value: string)
    ensures InOrder(map[name := value]) == [Field(name, value)]
  {
    var headers := map[name := value];
    assert headers.Keys == {name};
    assert |headers.Keys| == 1;
    assert headers - {name} == map[];
  }

  /** Printing what was read, and reading that, changes nothing, and the printed text has spaced lines
      only, exactly when the deciding header lines of the text are clean; the separators, the order of
      the lines and overwritten lines of the text are free. */
  lemma Canonicalisation(text: string)
    ensures var r := ParseRequest(text);
            CleanText(text) <==> r.Ok? && RoundTrips(r.value) && SpacedText(PrintRequest(r.value))
  {
    if ParseRequest(text).Ok? {
      ReadRequest(text);
      RoundTripExact(ParseRequest(text).value);
    }
  }

  /** Different safe requests have different texts. */
  lemma PrintInjective(a: Request, b: Request)
    requires SafeRequest(a) && SafeRequest(b) && PrintRequest(a) == PrintRequest(b)
    ensures a == b
  {
    RoundTrip(a);
    RoundTrip(b);
  }

  lemma HeadWithBody(l: Layout, body: string)
    requires ValidLayout(l) && IsHead(l.rest)
    ensures var other := l.(rest := WithBody(l.rest, body));
            ValidLayout(other) && LayoutText(other) == LayoutText(l) + body
  {
    hide RestText;
    var other := l.(rest := WithBody(l.rest, body));
    BodyAppended(l.rest, body);
    assert AfterUri(other) == AfterUri(l) + body;
    assert TargetText(other) == TargetText(l) + body;
  }

  /** Whatever bytes follow the blank line come back verbatim as the body and change nothing else,
      exactly when every deciding header line of the head is spaced. */
  lemma BodyIndependentIff(head: string, l: Layout)
    requires ParseLayout(head) == Ok(l) && ValidLayout(l) && IsHead(l.rest)
    ensures (forall body: string :: ParseRequest(head + body) == Ok(Meaning(l).(body := body)))
       <==> DecidersSpaced(l.rest.block)
  {
    BodyIrrelevantIff(l.rest.block);
    forall body: string
      ensures ParseRequest(head + body) == Ok(Meaning(l).(body := body))
         <==> HeadersOf(l.rest.block.(body := body)) == HeadersOf(l.rest.block)
    {
      OtherBody(head, l, body);
    }
  }

  lemma OtherBody(head: string, l: Layout, body: string)
    requires ParseLayout(head) == Ok(l) && ValidLayout(l) && IsHead(l.rest)
    ensures ValidBlock(l.rest.block.(body := body))
    ensures ParseRequest(head + body) ==
              Ok(Meaning(l).(body := body, headers := HeadersOf(l.rest.block.(body := body))))
  {
    LayoutSound(head);
    HeadWithBody(l, body);
    LayoutComplete(l.(rest := WithBody(l.rest, body)));
  }

  /** From header lines that are all spaced, each name gets the value of its last line; repetitions,
      separators and the characters after the colons are free. */
  lemma ReadFields(l: Layout)
    requires ValidLayout(l) && AllSpaced(l.rest.block.lines)
    ensures var fields := SpacedFields(l.rest.block.lines);
            && ParseRequest(LayoutText(l)) == Ok(Meaning(l).(headers := Assign(map[], fields)))
            && LastWins(fields, Meaning(l).headers)
  {
    LayoutComplete(l);
    SpacedHeaders(l.rest);
  }

  /** The same request line and body, and the same header lines in some order; the skipped characters
      may differ. */
  predicate SameUpToOrder(k: Layout, l: Layout) {
    && k.method_ == l.method_ && k.uri == l.uri && k.version == l.version
    && |l.gap| == 1
    && Rearranged(k.rest, l.rest)
  }

  /** Every order of the header lines gives the same request exactly when the lines are free of order;
      if their names are pairwise different, this says that there is at most one line, or that all are
      spaced. */
  lemma LineOrderIff(k: Layout)
    requires ValidLayout(k)
    ensures (forall l | SameUpToOrder(k, l) :: ParseRequest(LayoutText(l)) == Ok(Meaning(k)))
       <==> OrderFree(k.rest.block)
    ensures DistinctNames(k.rest.block) ==>
              (OrderFree(k.rest.block) <==> |k.rest.block.lines| <= 1 || AllSpaced(k.rest.block.lines))
  {
    hide HeadersOf, OrderFree, DistinctNames, AllSpaced, LayoutText, ParseRequest, Rearranged;
    var b := k.rest.block;
    OrderFreeIff(b);
    forall l | SameUpToOrder(k, l)
      ensures ValidLayout(l)
      ensures ParseRequest(LayoutText(l)) == Ok(Meaning(k)) <==> HeadersOf(l.rest.block) == HeadersOf(b)
    {
      ReorderedMeaning(k, l);
    }
    if OrderFree(b) {
      forall l | SameUpToOrder(k, l) ensures HeadersOf(l.rest.block) == HeadersOf(b) {
        SameBlock(k, l);
        OrderIgnored(b, l.rest.block);
      }
    }
    if forall l | SameUpToOrder(k, l) :: ParseRequest(LayoutText(l)) == Ok(Meaning(k)) {
      forall c: Block | Permuted(b, c) ensures ValidBlock(c) && HeadersOf(c) == HeadersOf(b) {
        RearrangedBlock(k.rest, c);
        assert SameUpToOrder(k, k.(rest := k.rest.(block := c)));
      }
    }
  }

  lemma SameBlock(k: Layout, l: Layout)
    requires SameUpToOrder(k, l)
    ensures Permuted(k.rest.block, l.rest.block)
  {
  }

  lemma ReorderedMeaning(k: Layout, l: Layout)
    requires ValidLayout(k) && SameUpToOrder(k, l)
    ensures ValidLayout(l) && ParseLayout(LayoutText(l)) == Ok(l)
    ensures ParseRequest(LayoutText(l)) == Ok(Meaning(k)) <==> HeadersOf(l.rest.block) == HeadersOf(k.rest.block)
  {
    hide HeadersOf, ParseLayout, LayoutText;
    RearrangedValid(k.rest, l.rest);
    LayoutComplete(l);
  }

  /** Accepted texts that differ only in the characters that are skipped and in the order of spaced
      header lines with pairwise different names. */
  predicate SpacedReordering(s: string, t: string) {
    && ParseLayout(s).Ok? && ParseLayout(t).Ok?
    && SameUpToOrder(ParseLayout(s).value, ParseLayout(t).value)
    && SpacedText(s)
    && (LayoutSound(s); DistinctNames(ParseLayout(s).value.rest.block))
  }

  /** Such texts are read as the same request. */
  lemma FieldOrderIrrelevant(s: string, t: string)
    ensures SpacedReordering(s, t) ==> ParseRequest(s) == ParseRequest(t)
  {
    hide ParseLayout, LayoutText, HeadersOf, OrderFree;
    if SpacedReordering(s, t) {
      var k, l := ParseLayout(s).value, ParseLayout(t).value;
      LayoutSound(s);
      LayoutSound(t);
      DistinctOrderFree(k.rest.block);
      SameBlock(k, l);
      OrderIgnored(k.rest.block, l.rest.block);
      ReorderedMeaning(k, l);
    }
  }

  /** Every byte of an accepted text is accounted for: tokens, skipped separators, header lines with
      their CRLF, blank line and body add up to the input. */
  lemma ByteAccounting(text: string)
    requires ParseRequest(text).Ok?
    ensures var r := ParseRequest(text).value;
            ParseLayout(text).Ok? &&
            var rest := ParseLayout(text).value.rest;
            && |text| == |MethodText(r.method_)| + 1 + |r.uri| + 1 + |VersionText(r.version)| + |rest.eol|
                         + TotalLength(rest.block.lines) + (if rest.block.blank then 2 else 0) + |r.body|
            && (|rest.eol| == 2 || (rest.block.lines == [] && !rest.block.blank && r.body == ""))
  {
    hide RestText, HeadersOf, ParseLayout;
    LayoutSound(text);
    RestLength(ParseLayout(text).value.rest);
  }

  /** The texts on which the parser throws: a method token alone, or with one character after it. */
  ghost predicate Truncated(text: string) {
    exists m: HttpMethod :: MethodText(m) <= text && |text| <= |MethodText(m)| + 1
  }

  lemma TruncatedSpelling(text: string)
    ensures Truncated(text) <==>
              || ("GET" <= text && |text| <= 4) || ("HEAD" <= text && |text| <= 5) || ("POST" <= text && |text| <= 5)
  {
    assert MethodText(Get) == "GET" && MethodText(Head) == "HEAD" && MethodText(Post) == "POST";
  }

  /** The parser is total up to these texts, and says which part it could not read. */
  lemma ParseDomain(text: string)
    ensures ParseRequest(text).OutOfRange? <==> Truncated(text)
    ensures Truncated(text) <==>
              || ("GET" <= text && |text| <= 4) || ("HEAD" <= text && |text| <= 5) || ("POST" <= text && |text| <= 5)
    ensures ParseRequest(text) == Err(ParseErrorMethod) <==> forall m: HttpMethod :: !(MethodText(m) <= text)
    ensures ParseRequest(text).Err? ==>
              ParseRequest(text).error in {ParseErrorMethod, ParseErrorUri, ParseErrorVersion, ParseErrorHeaders}
  {
    hide FirstMatch, ParseRequest, MethodText;
    TruncatedSpelling(text);
    ParseOutcome(text);
    var found := FirstMatch(METHODS, text);
    forall m: HttpMethod | MethodText(m) <= text ensures found == Some((m, MethodText(m))) {
      MatchMethod(m, text[|MethodText(m)|..]);
      assert text == MethodText(m) + text[|MethodText(m)|..];
    }
    if found.Some? {
      assert MethodText(found.value.0) <= text;
    }
  }

  lemma ParseOutcome(text: string)
    ensures var found, r := FirstMatch(METHODS, text), ParseRequest(text);
            && (found.Some? ==> found.value.1 == MethodText(found.value.0))
            && (r == Err(ParseErrorMethod) <==> found.None?)
            && (r.OutOfRange? <==> found.Some? && |text| <= |found.value.1| + 1)
            && (r.Err? ==> r.error in {ParseErrorMethod, ParseErrorUri, ParseErrorVersion, ParseErrorHeaders})
  {
    hide FirstMatch, ParseRest, Find, MethodText;
    MethodEntry(text);
  }

  /** The method of a request is the one whose token the text starts with, and the method is rejected
      exactly when the text starts with none of the three tokens. */
  lemma MethodTokens(text: string)
    ensures var r := ParseRequest(text);
            r.Ok? ==>
              && ("GET" <= text <==> r.value.method_ == Get)
              && ("HEAD" <= text <==> r.value.method_ == Head)
              && ("POST" <= text <==> r.value.method_ == Post)
    ensures ParseRequest(text) == Err(ParseErrorMethod) <==>
              !("GET" <= text) && !("HEAD" <= text) && !("POST" <= text)
  {
    hide FirstMatch, ParseLayout, ParseTarget, Meaning, ValidLayout;
    MethodIff(text);
    ParseOutcome(text);
    if ParseRequest(text).Ok? {
      ReadMethod(text);
    }
  }

  lemma ReadMethod(text: string)
    requires ParseRequest(text).Ok?
    ensures var m := ParseRequest(text).value.method_; FirstMatch(METHODS, text) == Some((m, MethodText(m)))
  {
    hide FirstMatch, ParseLayout, HeadersOf, TargetText;
    LayoutSound(text);
    var l := ParseLayout(text).value;
    MatchMethod(l.method_, l.gap + TargetText(l));
  }

  /** The text is put together from these parts, spelled out, and its header lines denote the headers. */
  ghost predicate WrittenAs(text: string, r: Request, gap: string, rest: Rest) {
    && |gap| == 1 && ValidUri(r.uri) && ValidRest(rest)
    && text == (match r.method_ case Get => "GET" case Head => "HEAD" case Post => "POST")
               + (gap + (r.uri + (" " + ("HTTP/1.1" + RestText(rest)))))
    && r.body == rest.block.body && Denotes(rest.block, r.headers)
  }

  /** What parsing returns, part by part, for every text and every request. */
  lemma ParsedParts(text: string, r: Request)
    ensures ParseRequest(text) == Ok(r) <==> exists gap: string, rest: Rest :: WrittenAs(text, r, gap, rest)
  {
    hide ParseLayout, Denotes, RestText, HeadersOf, ValidUri, ValidRest;
    MethodSpelling();
    if ParseRequest(text) == Ok(r) {
      LayoutSound(text);
      var l := ParseLayout(text).value;
      BlockValid(l.rest);
      HeadersDenoted(l.rest.block);
      assert WrittenAs(text, r, l.gap, l.rest);
    }
    forall gap: string, rest: Rest | WrittenAs(text, r, gap, rest) ensures ParseRequest(text) == Ok(r) {
      var l := Layout(r.method_, gap, r.uri, r.version, rest);
      BlockValid(rest);
      HeadersDenoted(rest.block);
      DenotedUnique(rest.block, HeadersOf(rest.block), r.headers);
      assert LayoutText(l) == text;
      LayoutComplete(l);
    }
  }

  /** With a method and one more character read, the URI is rejected exactly when the rest does not
      start with a slash or has no space to end the URI. */
  lemma UriError(m: HttpMethod, gap: string, rest: string)
    requires |gap| == 1 && rest != ""
    ensures ParseRequest(MethodText(m) + (gap + rest)) == Err(ParseErrorUri) <==> rest[0] != '/' || ' ' !in rest
  {
    hide FirstMatch, ParseBlock, Find, ParseLayout;
    MethodRead(m, gap + rest);
    assert (gap + rest)[1..] == rest;
    ContainsChar(rest, ' ');
  }

  lemma MethodRead(m: HttpMethod, rest: string)
    ensures ParseLayout(MethodText(m) + rest) == ParseTarget(m, rest)
  {
    hide FirstMatch, ParseTarget;
    MatchMethod(m, rest);
    assert (MethodText(m) + rest)[|MethodText(m)|..] == rest;
  }

  lemma UriRead(m: HttpMethod, gap: string, uri: string, rest: string)
    requires |gap| == 1 && ValidUri(uri)
    ensures ParseLayout(MethodText(m) + (gap + (uri + (" " + rest)))) == ParseVersion(m, gap, uri, rest)
  {
    hide ParseLayout, ParseVersion, Find;
    var target := uri + (" " + rest);
    MethodRead(m, gap + target);
    UriEnd(uri, rest);
    assert (gap + target)[1..] == target && (gap + target)[..1] == gap;
  }

  /** With the URI read, the version is rejected exactly when the rest does not start with it. */
  lemma VersionError(m: HttpMethod, gap: string, uri: string, rest: string)
    requires |gap| == 1 && ValidUri(uri)
    ensures ParseRequest(MethodText(m) + (gap + (uri + (" " + rest)))) == Err(ParseErrorVersion)
       <==> !("HTTP/1.1" <= rest)
  {
    hide FirstMatch, ParseLayout, ParseBlock;
    UriRead(m, gap, uri, rest);
    if VersionText(Http11) <= rest {
      var after := rest[|VersionText(Http11)|..];
      assert rest == VersionText(Http11) + after;
      MatchVersion(Http11, after);
    } else {
      VersionEntry(rest);
    }
  }

  /** With the whole start line read, the headers are rejected exactly when, after some well-formed
      lines, there is neither the end of the text, nor a blank line, nor a line with a colon. */
  lemma HeadersError(m: HttpMethod, gap: string, uri: string, v: HttpVersion, eol: string, rest: string)
    requires |gap| == 1 && ValidUri(uri) && |eol| == 2
    ensures ParseRequest(MethodText(m) + (gap + (uri + (" " + (VersionText(v) + (eol + rest))))))
            == Err(ParseErrorHeaders)
       <==> exists lines: seq<string>, bad: string :: LeadsToBad(lines, bad, rest)
  {
    hide LeadsToBad, ParseRest, FirstMatch, ParseLayout;
    UriRead(m, gap, uri, VersionText(v) + (eol + rest));
    MatchVersion(v, eol + rest);
    assert (VersionText(v) + (eol + rest))[|VersionText(v)|..] == eol + rest;
    RestRejectedIff(eol, rest);
  }
}
