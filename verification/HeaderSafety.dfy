/** Which header maps survive being written and read again, and how far a map depends on the text
    that follows the header lines. */
module HeaderSafety {
  import opened Strings
  import opened HeaderBlock
  import opened HeaderFields
  import opened OrderedMap

  predicate SafeName(name: string) {
    !Contains(name, ":") && !Contains(name, CRLF)
  }

  predicate SafeValue(value: string) {
    !Contains(value, CRLF)
  }

  predicate SafeNames(headers: Headers) {
    forall name | name in headers :: SafeName(name)
  }

  predicate SafeValues(headers: Headers) {
    forall name | name in headers :: SafeValue(headers[name])
  }

  predicate SafeField(field: Field) {
    SafeName(field.name) && SafeValue(field.value)
  }

  function Render(field: Field): string {
    field.name + ": " + field.value
  }

  function RenderAll(fields: seq<Field>): (lines: seq<string>)
    ensures |lines| == |fields|
    ensures forall i | 0 <= i < |fields| :: lines[i] == Render(fields[i])
  {
    seq(|fields|, i requires 0 <= i < |fields| => Render(fields[i]))
  }

  /** The lines that are written for fields, spelled out. */
  lemma {:induction false} LinesSpelled(fields: seq<Field>)
    ensures Join(RenderAll(fields)) ==
              Flatten(seq(|fields|, i requires 0 <= i < |fields| => fields[i].name + ": " + fields[i].value + "\r\n"))
  {
    var parts := seq(|fields|, i requires 0 <= i < |fields| => fields[i].name + ": " + fields[i].value + "\r\n");
    if fields != [] {
      var rest := fields[1..];
      LinesSpelled(rest);
      assert RenderAll(fields)[1..] == RenderAll(rest);
      assert parts[1..] ==
             seq(|rest|, i requires 0 <= i < |rest| => rest[i].name + ": " + rest[i].value + "\r\n");
    }
  }

  lemma {:induction false} JoinSpelled(lines: seq<string>)
    ensures Join(lines) == Flatten(seq(|lines|, i requires 0 <= i < |lines| => lines[i] + "\r\n"))
  {
    var parts := seq(|lines|, i requires 0 <= i < |lines| => lines[i] + "\r\n");
    if lines != [] {
      var rest := lines[1..];
      JoinSpelled(rest);
      assert parts[1..] == seq(|rest|, i requires 0 <= i < |rest| => rest[i] + "\r\n");
    }
  }

  /** The block that is written for a header map and a body. */
  function PrintBlock(headers: Headers, body: string): Block {
    Block(RenderAll(InOrder(headers)), true, body)
  }

  /** The written header section: line `i` is the `i`-th entry of the map in ascending order of names. */
  lemma PrintedLines(headers: Headers, body: string)
    ensures var lines, fields := PrintBlock(headers, body).lines, InOrder(headers);
            && |lines| == |fields| == |headers|
            && (forall i | 0 <= i < |lines| ::
                  && fields[i].name in headers && headers[fields[i].name] == fields[i].value
                  && lines[i] == fields[i].name + ": " + fields[i].value)
            && (forall i, j | 0 <= i < j < |lines| :: Before(fields[i].name, fields[j].name))
  {
    InOrderLists(headers);
    InOrderLength(headers);
  }

  predicate AllSpaced(lines: seq<string>) {
    forall i | 0 <= i < |lines| :: IsLine(lines[i]) && Spaced(lines[i])
  }

  /** A safe field is written as one well-formed line, which reads back as that field. */
  lemma RenderedLine(field: Field, after: string)
    requires SafeField(field)
    ensures IsLine(Render(field)) && Spaced(Render(field))
    ensures FieldOf(Render(field), after) == field
  {
    var line, name := Render(field), field.name;
    ContainsChar(name, ':');
    assert line[..|name|] == name && line[|name|] == ':';
    FindChar(line, ':', |name|);
    assert line[|name| + 2..] == field.value;
    if Contains(line, CRLF) {
      var k := Find(line, CRLF, 0).value;
      CrlfAt(line, k);
      CrlfAt(name, k);
      CrlfAt(field.value, k - |name| - 2);
      assert false;
    }
  }

  lemma {:induction false} RenderedFields(fields: seq<Field>, tail: string)
    requires forall i | 0 <= i < |fields| :: SafeField(fields[i])
    ensures var lines := RenderAll(fields);
            && AllSpaced(lines)
            && FieldsOf(lines, tail) == fields
  {
    var lines := RenderAll(fields);
    forall i | 0 <= i < |lines| ensures IsLine(lines[i]) && Spaced(lines[i]) {
      RenderedLine(fields[i], "");
    }
    forall i | 0 <= i < |lines| ensures FieldsOf(lines, tail)[i] == fields[i] {
      FieldAt(lines, tail, i);
      RenderedLine(fields[i], Join(lines[i + 1..]) + tail);
    }
  }

  /** A safe header map is read back unchanged. */
  lemma PrintedHeaders(headers: Headers, body: string)
    requires SafeNames(headers) && SafeValues(headers)
    ensures var b := PrintBlock(headers, body);
            ValidBlock(b) && AllSpaced(b.lines) && HeadersOf(b) == headers
  {
    var fields := InOrder(headers);
    InOrderLists(headers);
    forall i | 0 <= i < |fields| ensures SafeField(fields[i]) {
      assert fields[i].name in headers;
    }
    RenderedFields(fields, Tail(PrintBlock(headers, body)));
    InOrderRebuilds(headers);
  }

  /** No later line has the name of line `i`, so line `i` decides the value of that name. */
  predicate Decides(lines: seq<string>, i: nat)
    requires forall j | 0 <= j < |lines| :: IsLine(lines[j])
    requires i < |lines|
  {
    IsLine(lines[i]) && forall j | i < j < |lines| :: IsLine(lines[j]) && NameOf(lines[j]) != NameOf(lines[i])
  }

  /** The value a line gives its name in a block. */
  function ValueAt(b: Block, i: nat): string
    requires ValidBlock(b) && i < |b.lines|
  {
    FieldOf(b.lines[i], Join(b.lines[i + 1..]) + Tail(b)).value
  }

  /** The header map of a block, line by line: its names are those of the lines, and the value of
      a name is the one of the line that decides it. */
  ghost predicate Denotes(b: Block, headers: Headers)
    requires ValidBlock(b)
  {
    && (forall name | name in headers ::
          exists i: nat :: i < |b.lines| && NameOf(b.lines[i]) == name && Decides(b.lines, i))
    && (forall i: nat | i < |b.lines| :: NameOf(b.lines[i]) in headers)
    && (forall i: nat | i < |b.lines| && Decides(b.lines, i) :: headers[NameOf(b.lines[i])] == ValueAt(b, i))
  }

  lemma DecidesIsLast(b: Block, i: nat)
    requires ValidBlock(b) && i < |b.lines|
    ensures var fields := FieldsOf(b.lines, Tail(b));
            && fields[i] == Field(NameOf(b.lines[i]), ValueAt(b, i))
            && (Decides(b.lines, i) <==> IsLast(fields, i))
  {
    var fields := FieldsOf(b.lines, Tail(b));
    forall j: nat | j < |b.lines| ensures fields[j].name == NameOf(b.lines[j]) {
      FieldAt(b.lines, Tail(b), j);
    }
    FieldAt(b.lines, Tail(b), i);
  }

  lemma HeadersDenoted(b: Block)
    requires ValidBlock(b)
    ensures Denotes(b, HeadersOf(b))
  {
    var fields, headers := FieldsOf(b.lines, Tail(b)), HeadersOf(b);
    AssignLastWins(fields);
    forall i: nat | i < |b.lines|
      ensures NameOf(b.lines[i]) in headers
      ensures Decides(b.lines, i) ==> headers[NameOf(b.lines[i])] == ValueAt(b, i)
    {
      DecidesIsLast(b, i);
    }
    forall name | name in headers
      ensures exists i: nat :: i < |b.lines| && NameOf(b.lines[i]) == name && Decides(b.lines, i)
    {
      var i: nat :| i < |fields| && fields[i].name == name;
      var last := LastIndex(fields, i);
      DecidesIsLast(b, last);
    }
  }

  lemma DenotedUnique(b: Block, headers: Headers, others: Headers)
    requires ValidBlock(b) && Denotes(b, headers) && Denotes(b, others)
    ensures headers == others
  {
    DenotedNames(b, headers, others);
    DenotedNames(b, others, headers);
    forall name | name in headers ensures headers[name] == others[name] {
      DenotedValue(b, headers, others, name);
    }
    MapsEqual(headers, others);
  }

  lemma MapsEqual(a: Headers, b: Headers)
    requires a.Keys == b.Keys && forall name | name in a :: a[name] == b[name]
    ensures a == b
  {
  }

  lemma DenotedValue(b: Block, headers: Headers, others: Headers, name: string)
    requires ValidBlock(b) && Denotes(b, headers) && Denotes(b, others)
    requires name in headers && name in others
    ensures headers[name] == others[name]
  {
    var i: nat :| i < |b.lines| && NameOf(b.lines[i]) == name && Decides(b.lines, i);
  }

  lemma DenotedNames(b: Block, headers: Headers, others: Headers)
    requires ValidBlock(b) && Denotes(b, headers) && Denotes(b, others)
    ensures headers.Keys <= others.Keys
  {
    forall name | name in headers ensures name in others {
      var i: nat :| i < |b.lines| && NameOf(b.lines[i]) == name && Decides(b.lines, i);
    }
  }

  lemma LineParts(line: string)
    requires IsLine(line)
    ensures SafeName(NameOf(line))
    ensures Spaced(line) ==> SafeValue(line[|NameOf(line)| + 2..])
  {
    var name := NameOf(line);
    ContainsChar(line, ':');
    ContainsChar(name, ':');
    assert "" + name + line[|name|..] == line;
    PartFree("", name, line[|name|..], CRLF);
    if Spaced(line) {
      assert line[..|name| + 2] + line[|name| + 2..] + "" == line;
      PartFree(line[..|name| + 2], line[|name| + 2..], "", CRLF);
    }
  }

  /** Every name that is ever read is safe. */
  lemma ReadNamesSafe(b: Block)
    requires ValidBlock(b)
    ensures SafeNames(HeadersOf(b))
  {
    HeadersDenoted(b);
    forall name | name in HeadersOf(b) ensures SafeName(name) {
      var i: nat :| i < |b.lines| && NameOf(b.lines[i]) == name && Decides(b.lines, i);
      LineParts(b.lines[i]);
    }
  }

  /** Line `i` is spaced, or nothing at all follows its CRLF. */
  predicate Clean(b: Block, i: nat)
    requires ValidBlock(b) && i < |b.lines|
  {
    Spaced(b.lines[i]) || (i == |b.lines| - 1 && !b.blank)
  }

  predicate DecidersClean(b: Block)
    requires ValidBlock(b)
  {
    forall i: nat | i < |b.lines| && Decides(b.lines, i) :: Clean(b, i)
  }

  lemma CleanValue(b: Block, i: nat)
    requires ValidBlock(b) && i < |b.lines|
    ensures SafeValue(ValueAt(b, i)) <==> Clean(b, i)
  {
    var line, after := b.lines[i], Join(b.lines[i + 1..]) + Tail(b);
    if Spaced(line) {
      LineParts(line);
    } else if Clean(b, i) {
      assert after == "";
    } else if i < |b.lines| - 1 {
      var next := b.lines[i + 1];
      var rest := Join(b.lines[i + 2..]) + Tail(b);
      assert b.lines[i + 1..][1..] == b.lines[i + 2..];
      assert "\n" + after == ("\n" + next) + CRLF + rest;
      HasCrlf("\n" + next, rest);
    } else {
      assert "\n" + after == "\n" + CRLF + b.body;
      HasCrlf("\n", b.body);
    }
  }

  lemma HasCrlf(before: string, after: string)
    ensures Contains(before + CRLF + after, CRLF)
  {
    var s := before + CRLF + after;
    assert s[|before|..|before| + 2] == CRLF;
    assert OccursAt(s, CRLF, |before|);
  }

  /** The values that are read are safe exactly when every deciding line is clean. */
  lemma ReadValuesSafeIff(b: Block)
    requires ValidBlock(b)
    ensures SafeValues(HeadersOf(b)) <==> DecidersClean(b)
  {
    HeadersDenoted(b);
    var headers := HeadersOf(b);
    forall i: nat | i < |b.lines| && Decides(b.lines, i)
      ensures SafeValue(headers[NameOf(b.lines[i])]) <==> Clean(b, i)
    {
      CleanValue(b, i);
    }
  }

  predicate DecidersSpaced(b: Block)
    requires ValidBlock(b)
  {
    forall i: nat | i < |b.lines| && Decides(b.lines, i) :: IsLine(b.lines[i]) && Spaced(b.lines[i])
  }

  /** The header map does not depend on the body exactly when every deciding line is spaced. */
  lemma BodyIrrelevantIff(b: Block)
    requires ValidBlock(b) && b.blank
    ensures (forall body: string :: HeadersOf(b.(body := body)) == HeadersOf(b))
       <==> DecidersSpaced(b)
  {
    if DecidersSpaced(b) {
      forall body: string ensures HeadersOf(b.(body := body)) == HeadersOf(b) {
        SpacedIgnoresBody(b, body);
      }
    } else {
      UnspacedSeesBody(b);
    }
  }

  lemma SpacedIgnoresBody(b: Block, body: string)
    requires ValidBlock(b) && b.blank && DecidersSpaced(b)
    ensures HeadersOf(b.(body := body)) == HeadersOf(b)
  {
    var other := b.(body := body);
    HeadersDenoted(b);
    HeadersDenoted(other);
    forall i: nat | i < |b.lines| && Decides(b.lines, i) ensures ValueAt(other, i) == ValueAt(b, i) {
      assert Spaced(b.lines[i]);
    }
    assert Denotes(b, HeadersOf(other));
    DenotedUnique(b, HeadersOf(other), HeadersOf(b));
  }

  lemma UnspacedSeesBody(b: Block)
    requires ValidBlock(b) && b.blank && !DecidersSpaced(b)
    ensures exists body: string :: HeadersOf(b.(body := body)) != HeadersOf(b)
  {
    var i: nat :| i < |b.lines| && Decides(b.lines, i) && !Spaced(b.lines[i]);
    var other := b.(body := b.body + "x");
    HeadersDenoted(b);
    HeadersDenoted(other);
    assert |ValueAt(other, i)| == |ValueAt(b, i)| + 1;
    assert HeadersOf(other) != HeadersOf(b);
  }
}
