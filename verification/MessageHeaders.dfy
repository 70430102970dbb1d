/** What requests and responses share on the level of header maps: the upkeep of Content-Length by
    `set_body`, and the text of the header section. */
module MessageHeaders {
  import opened Strings
  import opened Decimal
  import opened HeaderBlock
  import opened HeaderSafety

  const CONTENT_LENGTH: string := "Content-Length"

  /** The header map after `set_body(body)`. */
  function WithLength(headers: Headers, body: string): Headers {
    if body == "" then headers - {CONTENT_LENGTH}
    else headers[CONTENT_LENGTH := ToDecimal(|body|)]
  }

  /** Content-Length is present exactly when there is a body, and then spells its length. */
  predicate LengthAgrees(headers: Headers, body: string) {
    && ("Content-Length" in headers <==> body != "")
    && (body != "" ==> IsNumeral(headers["Content-Length"]) && FromDecimal(headers["Content-Length"]) == |body|)
  }

  lemma WithLengthAgrees(headers: Headers, body: string)
    ensures LengthAgrees(WithLength(headers, body), body)
    ensures body != "" ==> WithLength(headers, body)["Content-Length"] == ToDecimal(|body|)
    ensures forall name | name != "Content-Length" ::
              && (name in WithLength(headers, body) <==> name in headers)
              && (name in headers ==> WithLength(headers, body)[name] == headers[name])
  {
    DecimalRoundTrip(|body|);
  }

  lemma WithLengthSafe(headers: Headers, body: string)
    requires SafeNames(headers) && SafeValues(headers)
    ensures SafeNames(WithLength(headers, body)) && SafeValues(WithLength(headers, body))
  {
    hide Find, ToDecimal;
    ContainsChar(CONTENT_LENGTH, ':');
    NoLineFeed(CONTENT_LENGTH);
    DecimalRoundTrip(|body|);
    NoLineFeed(ToDecimal(|body|));
  }

  lemma NoLineFeed(s: string)
    requires '\n' !in s
    ensures !Contains(s, CRLF)
  {
    forall k: int | 0 <= k ensures !OccursAt(s, CRLF, k) {
      CrlfAt(s, k);
    }
  }

  /** Writing the fields one after the other, name, ": ", value and CRLF. */
  method AppendFields(start: string, fields: seq<Field>) returns (result: string)
    ensures result == start + Join(RenderAll(fields))
    ensures result == start +
              Flatten(seq(|fields|, i requires 0 <= i < |fields| => fields[i].name + ": " + fields[i].value + "\r\n"))
  {
    LinesSpelled(fields);
    ghost var lines := RenderAll(fields);
    result := start;
    var i := 0;
    while i < |fields|
      invariant i <= |fields|
      invariant result == start + Join(lines[..i])
    {
      JoinAppend(lines[..i], lines[i]);
      assert lines[..i + 1] == lines[..i] + [lines[i]];
      result := result + (fields[i].name + ": " + fields[i].value + CRLF);
      i := i + 1;
    }
    assert lines[..i] == lines;
  }
}
