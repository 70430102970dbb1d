/** Methods, statuses, versions and error codes, with the tables that spell them. */
module HttpTokens {
  import opened Strings
  import opened Decimal

  datatype HttpMethod = Get | Head | Post

  datatype HttpStatus = StatusOk | BadRequest | NotFound | InternalServerError

  datatype HttpVersion = Http11

  datatype Error =
    | ParseErrorMethod
    | ParseErrorUri
    | ParseErrorVersion
    | ParseErrorHeaders
    | ParseErrorBody
    | ParseErrorStatus

  /** `std::expected` with an error code, extended by the `out_of_range` exception that
      `std::string_view` throws. */
  datatype Result<+T> = Ok(value: T) | Err(error: Error) | OutOfRange

  /** The tables, in the iteration order of the maps keyed by the enumerations. */
  const METHODS: seq<(HttpMethod, string)> := [(Get, "GET"), (Head, "HEAD"), (Post, "POST")]

  const STATUSES: seq<(HttpStatus, string)> :=
    [(StatusOk, StatusText(StatusOk)), (BadRequest, StatusText(BadRequest)),
     (NotFound, StatusText(NotFound)), (InternalServerError, StatusText(InternalServerError))]

  const VERSIONS: seq<(HttpVersion, string)> := [(Http11, "HTTP/1.1")]

  function MethodText(m: HttpMethod): string {
    match m
    case Get => "GET"
    case Head => "HEAD"
    case Post => "POST"
  }

  function StatusCode(s: HttpStatus): nat {
    match s
    case StatusOk => 200
    case BadRequest => 400
    case NotFound => 404
    case InternalServerError => 500
  }

  function Reason(s: HttpStatus): string {
    match s
    case StatusOk => "OK"
    case BadRequest => "Bad Request"
    case NotFound => "Not Found"
    case InternalServerError => "Internal Server Error"
  }

  /** Code and reason, the text both sides of the codec use for a status. */
  function StatusText(s: HttpStatus): string {
    ToDecimal(StatusCode(s)) + " " + Reason(s)
  }

  function VersionText(v: HttpVersion): string {
    match v
    case Http11 => "HTTP/1.1"
  }

  /** The first entry of a table whose text is a prefix of the input. */
  function FirstMatch<T>(table: seq<(T, string)>, text: string): (r: Option<(T, string)>)
    ensures r.Some? ==> r.value in table && r.value.1 <= text
    ensures r.None? <==> forall i | 0 <= i < |table| :: !(table[i].1 <= text)
  {
    if table == [] then None
    else if table[0].1 <= text then Some(table[0])
    else
      var r := FirstMatch(table[1..], text);
      assert forall i | 1 <= i < |table| :: table[i] == table[1..][i - 1];
      r
  }

  ghost predicate IsFirstMatch<T>(table: seq<(T, string)>, text: string, r: Option<(T, string)>) {
    match r
    case None => forall i | 0 <= i < |table| :: !(table[i].1 <= text)
    case Some(entry) =>
      exists i | 0 <= i < |table| ::
        table[i] == entry && entry.1 <= text && forall j | 0 <= j < i :: !(table[j].1 <= text)
  }

  /** The result is the first matching entry of the table, and nothing else is. */
  lemma {:induction false} FirstMatchIff<T>(table: seq<(T, string)>, text: string, r: Option<(T, string)>)
    ensures FirstMatch(table, text) == r <==> IsFirstMatch(table, text, r)
  {
    FirstMatchIsFirst(table, text);
    var found := FirstMatch(table, text);
    if IsFirstMatch(table, text, r) && r.Some? && found.Some? {
      var i :| 0 <= i < |table| && table[i] == r.value && forall j | 0 <= j < i :: !(table[j].1 <= text);
      var k :| 0 <= k < |table| && table[k] == found.value && forall j | 0 <= j < k :: !(table[j].1 <= text);
      assert i == k;
    }
  }

  lemma {:induction false} FirstMatchIsFirst<T>(table: seq<(T, string)>, text: string)
    ensures IsFirstMatch(table, text, FirstMatch(table, text))
  {
    var r := FirstMatch(table, text);
    if r.Some? && table[0].1 <= text {
      assert table[0] == r.value;
    } else if r.Some? {
      FirstMatchIsFirst(table[1..], text);
      var i :| 0 <= i < |table[1..]| && table[1..][i] == r.value
            && forall j | 0 <= j < i :: !(table[1..][j].1 <= text);
      assert table[i + 1] == r.value;
      forall j | 0 <= j < i + 1 ensures !(table[j].1 <= text) {
        if j > 0 {
          assert table[j] == table[1..][j - 1];
        }
      }
    }
  }

  predicate PrefixFree<T>(table: seq<(T, string)>) {
    forall i, j | 0 <= i < |table| && 0 <= j < |table| && i != j :: !(table[i].1 <= table[j].1)
  }

  /** In a prefix-free table the matching entry is unique, whatever the order of the table. */
  lemma MatchUnique<T>(table: seq<(T, string)>, text: string, i: nat)
    requires PrefixFree(table) && i < |table| && table[i].1 <= text
    ensures FirstMatch(table, text) == Some(table[i])
  {
    var entry := FirstMatch(table, text).value;
    var j :| 0 <= j < |table| && table[j] == entry;
    PrefixesComparable(table[i].1, table[j].1, text);
  }

  lemma PrefixesComparable(a: string, b: string, text: string)
    requires a <= text && b <= text
    ensures a <= b || b <= a
  {
  }

  /** Every value of the enumerations is in its table, under its own text. */
  lemma TablesComplete(m: HttpMethod, s: HttpStatus, v: HttpVersion)
    ensures exists i :: 0 <= i < |METHODS| && METHODS[i] == (m, MethodText(m))
    ensures exists i :: 0 <= i < |STATUSES| && STATUSES[i] == (s, StatusText(s))
    ensures exists i :: 0 <= i < |VERSIONS| && VERSIONS[i] == (v, VersionText(v))
  {
    assert METHODS[match m case Get => 0 case Head => 1 case Post => 2] == (m, MethodText(m));
    assert STATUSES[match s case StatusOk => 0 case BadRequest => 1 case NotFound => 2 case InternalServerError => 3]
        == (s, StatusText(s));
    assert VERSIONS[0] == (v, VersionText(v));
  }

  lemma FirstMatchStep<T>(table: seq<(T, string)>, text: string)
    requires table != []
    ensures FirstMatch(table, text) == if table[0].1 <= text then Some(table[0]) else FirstMatch(table[1..], text)
  {
  }

  lemma FirstMatchNone<T>(table: seq<(T, string)>, text: string)
    requires table == []
    ensures FirstMatch(table, text) == None
  {
  }

  /** The tokens of the methods, spelled out. */
  lemma MethodFound(text: string)
    ensures FirstMatch(METHODS, text) ==
              if "GET" <= text then Some((Get, "GET"))
              else if "HEAD" <= text then Some((Head, "HEAD"))
              else if "POST" <= text then Some((Post, "POST"))
              else None
  {
    hide FirstMatch;
    FirstMatchStep(METHODS, text);
    FirstMatchStep(METHODS[1..], text);
    FirstMatchStep(METHODS[1..][1..], text);
    FirstMatchNone(METHODS[1..][1..][1..], text);
  }

  /** A text starts with the token of at most one method. */
  lemma MethodIff(text: string)
    ensures var r := FirstMatch(METHODS, text);
            && ("GET" <= text <==> r == Some((Get, "GET")))
            && ("HEAD" <= text <==> r == Some((Head, "HEAD")))
            && ("POST" <= text <==> r == Some((Post, "POST")))
            && (r.None? || r == Some((Get, "GET")) || r == Some((Head, "HEAD")) || r == Some((Post, "POST")))
  {
    hide FirstMatch;
    MethodFound(text);
    assert "GET"[0] == 'G' && "HEAD"[0] == 'H' && "POST"[0] == 'P';
  }

  lemma MethodSpelling()
    ensures MethodText(Get) == "GET" && MethodText(Head) == "HEAD" && MethodText(Post) == "POST"
  {
  }

  /** The text of a status, spelled out. */
  lemma StatusSpelling(s: HttpStatus)
    ensures StatusText(s) ==
              match s
              case StatusOk => "200 OK"
              case BadRequest => "400 Bad Request"
              case NotFound => "404 Not Found"
              case InternalServerError => "500 Internal Server Error"
  {
    hide StatusText;
    match s
    case StatusOk => OkText();
    case BadRequest => BadRequestText();
    case NotFound => NotFoundText();
    case InternalServerError => InternalServerErrorText();
  }

  lemma OkText()
    ensures StatusText(StatusOk) == "200 OK"
  {
    hide ToDecimal;
    ThreeDigits(2, 0, 0);
    assert "200" + " " + "OK" == "200 OK";
  }

  lemma BadRequestText()
    ensures StatusText(BadRequest) == "400 Bad Request"
  {
    hide ToDecimal;
    ThreeDigits(4, 0, 0);
    assert "400" + " " + "Bad Request" == "400 Bad Request";
  }

  lemma NotFoundText()
    ensures StatusText(NotFound) == "404 Not Found"
  {
    hide ToDecimal;
    ThreeDigits(4, 0, 4);
    assert "404" + " " + "Not Found" == "404 Not Found";
  }

  lemma InternalServerErrorText()
    ensures StatusText(InternalServerError) == "500 Internal Server Error"
  {
    hide ToDecimal;
    ThreeDigits(5, 0, 0);
    assert "500" + " " + "Internal Server Error" == "500 Internal Server Error";
  }

  lemma ThreeDigits(a: nat, b: nat, c: nat)
    requires 0 < a < 10 && b < 10 && c < 10
    ensures ToDecimal(100 * a + 10 * b + c) == ["0123456789"[a], "0123456789"[b], "0123456789"[c]]
  {
    hide ToDecimal, Digit;
    DecimalDigits(0, a);
    DecimalDigits(a, b);
    DecimalDigits(10 * a + b, c);
    assert 10 * (10 * a + b) + c == 100 * a + 10 * b + c;
  }

  /** The texts of the statuses in their table, spelled out. */
  lemma StatusFound(text: string)
    ensures FirstMatch(STATUSES, text) ==
              if "200 OK" <= text then Some((StatusOk, "200 OK"))
              else if "400 Bad Request" <= text then Some((BadRequest, "400 Bad Request"))
              else if "404 Not Found" <= text then Some((NotFound, "404 Not Found"))
              else if "500 Internal Server Error" <= text then
                Some((InternalServerError, "500 Internal Server Error"))
              else None
  {
    hide FirstMatch, StatusText;
    StatusSpelling(StatusOk);
    StatusSpelling(BadRequest);
    StatusSpelling(NotFound);
    StatusSpelling(InternalServerError);
    FirstMatchStep(STATUSES, text);
    FirstMatchStep(STATUSES[1..], text);
    FirstMatchStep(STATUSES[1..][1..], text);
    FirstMatchStep(STATUSES[1..][1..][1..], text);
    FirstMatchNone(STATUSES[1..][1..][1..][1..], text);
  }

  /** A text starts with the code and reason of at most one status. */
  lemma StatusIff(text: string)
    ensures var r := FirstMatch(STATUSES, text);
            && ("200 OK" <= text <==> r == Some((StatusOk, "200 OK")))
            && ("400 Bad Request" <= text <==> r == Some((BadRequest, "400 Bad Request")))
            && ("404 Not Found" <= text <==> r == Some((NotFound, "404 Not Found")))
            && ("500 Internal Server Error" <= text
                <==> r == Some((InternalServerError, "500 Internal Server Error")))
            && (r.None? || r == Some((StatusOk, "200 OK")) || r == Some((BadRequest, "400 Bad Request"))
                || r == Some((NotFound, "404 Not Found"))
                || r == Some((InternalServerError, "500 Internal Server Error")))
  {
    hide FirstMatch;
    StatusFound(text);
    assert "200 OK"[0] == '2' && "500 Internal Server Error"[0] == '5';
    assert "400 Bad Request"[0] == '4' && "400 Bad Request"[2] == '0';
    assert "404 Not Found"[0] == '4' && "404 Not Found"[2] == '4';
  }

  lemma VersionFound(text: string)
    ensures FirstMatch(VERSIONS, text) == if "HTTP/1.1" <= text then Some((Http11, "HTTP/1.1")) else None
    ensures VersionText(Http11) == "HTTP/1.1"
  {
    assert VERSIONS[1..] == [];
  }

  lemma MethodsPrefixFree()
    ensures PrefixFree(METHODS)
  {
    assert "GET"[0] == 'G' && "HEAD"[0] == 'H' && "POST"[0] == 'P';
  }

  lemma StatusesPrefixFree()
    ensures PrefixFree(STATUSES)
  {
    hide StatusText;
    forall i, j | 0 <= i < |STATUSES| && 0 <= j < |STATUSES| && i != j
      ensures !(STATUSES[i].1 <= STATUSES[j].1)
    {
      StatusesDiffer(STATUSES[i].0, STATUSES[j].0);
    }
  }

  lemma StatusesDiffer(s: HttpStatus, t: HttpStatus)
    requires s != t
    ensures !(StatusText(s) <= StatusText(t))
  {
    hide StatusText;
    StatusDigits(s);
    StatusDigits(t);
  }

  lemma StatusDigits(s: HttpStatus)
    ensures |StatusText(s)| > 3
    ensures StatusText(s)[0] == Digit(StatusCode(s) / 100) && StatusText(s)[2] == Digit(StatusCode(s) % 10)
  {
    var n := StatusCode(s);
    assert ToDecimal(n) == ToDecimal(n / 10) + [Digit(n % 10)];
    assert ToDecimal(n / 10) == ToDecimal(n / 100) + [Digit(n / 10 % 10)];
  }

  /** Reading a table at a text that starts with the token of `m`, followed by anything. */
  lemma MatchMethod(m: HttpMethod, rest: string)
    ensures FirstMatch(METHODS, MethodText(m) + rest) == Some((m, MethodText(m)))
  {
    TablesComplete(m, StatusOk, Http11);
    MethodsPrefixFree();
    var i :| 0 <= i < |METHODS| && METHODS[i] == (m, MethodText(m));
    MatchUnique(METHODS, MethodText(m) + rest, i);
  }

  lemma MatchStatus(s: HttpStatus, rest: string)
    ensures FirstMatch(STATUSES, StatusText(s) + rest) == Some((s, StatusText(s)))
  {
    TablesComplete(Get, s, Http11);
    StatusesPrefixFree();
    var i :| 0 <= i < |STATUSES| && STATUSES[i] == (s, StatusText(s));
    MatchUnique(STATUSES, StatusText(s) + rest, i);
  }

  lemma MatchVersion(v: HttpVersion, rest: string)
    ensures FirstMatch(VERSIONS, VersionText(v) + rest) == Some((v, VersionText(v)))
  {
  }

  /** An entry found in a table carries the text of its value. */
  lemma MethodEntry(text: string)
    ensures var r := FirstMatch(METHODS, text); r.Some? ==> r.value.1 == MethodText(r.value.0)
  {
  }

  lemma StatusEntry(text: string)
    ensures var r := FirstMatch(STATUSES, text); r.Some? ==> r.value.1 == StatusText(r.value.0)
  {
  }

  lemma VersionEntry(text: string)
    ensures var r := FirstMatch(VERSIONS, text); r.Some? ==> r.value.1 == VersionText(r.value.0)
  {
  }
}
