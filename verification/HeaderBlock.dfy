/** The part of a message after its start line, as a grammar: header lines, an optional blank
    line, and a body. `ParseBlock` reads a text into a `Block`; `BlockText` writes it back. */
module HeaderBlock {
  import opened Strings

  datatype Field = Field(name: string, value: string)

  type Headers = map<string, string>

  /** `lines` are the header lines without their CRLF; `blank` says whether the empty line that
      ends the header section is there. */
  datatype Block = Block(lines: seq<string>, blank: bool, body: string)

  predicate IsLine(line: string) {
    Contains(line, ":") && !Contains(line, CRLF)
  }

  predicate ValidBlock(b: Block) {
    && (forall i | 0 <= i < |b.lines| :: IsLine(b.lines[i]))
    && (!b.blank ==> b.body == "")
  }

  function Join(lines: seq<string>): string {
    if lines == [] then "" else lines[0] + CRLF + Join(lines[1..])
  }

  /** Everything after the header lines. */
  function Tail(b: Block): string {
    (if b.blank then CRLF else "") + b.body
  }

  function BlockText(b: Block): string {
    Join(b.lines) + Tail(b)
  }

  lemma {:induction false} JoinAppend(lines: seq<string>, line: string)
    ensures Join(lines + [line]) == Join(lines) + line + CRLF
  {
    if lines == [] {
      assert Join([line]) == line + CRLF + Join([]);
    } else {
      JoinAppend(lines[1..], line);
      assert (lines + [line])[1..] == lines[1..] + [line];
    }
  }

  function TotalLength(lines: seq<string>): nat {
    if lines == [] then 0 else |lines[0]| + 2 + TotalLength(lines[1..])
  }

  lemma {:induction false} BlockLength(b: Block)
    ensures |BlockText(b)| == TotalLength(b.lines) + (if b.blank then 2 else 0) + |b.body|
    decreases |b.lines|
  {
    if b.lines != [] {
      BlockLength(b.(lines := b.lines[1..]));
    }
  }

  /** The length of the header line a text starts with, if it starts with one. */
  function FirstLine(t: string): (r: Option<nat>)
    ensures r.Some? ==> r.value + 2 <= |t| && Contains(t[..r.value], ":")
  {
    var end := Find(t, CRLF, 0);
    if end.Some? && Contains(t[..end.value], ":") then end else None
  }

  function ParseBlock(t: string): Option<Block>
    decreases |t|
  {
    if t == "" then Some(Block([], false, ""))
    else if CRLF <= t then Some(Block([], true, t[2..]))
    else match FirstLine(t)
      case None => None
      case Some(end) =>
        match ParseBlock(t[end + 2..])
        case None => None
        case Some(b) => Some(b.(lines := [t[..end]] + b.lines))
  }

  /** Reading back a well-formed block yields that block: no text has two readings. */
  lemma {:induction false} ParseComplete(b: Block)
    requires ValidBlock(b)
    ensures ParseBlock(BlockText(b)) == Some(b)
    decreases |b.lines|
  {
    hide ParseBlock, BlockText;
    if b.lines == [] {
      NoLines(b);
    } else {
      var line, rest := b.lines[0], b.(lines := b.lines[1..]);
      ParseComplete(rest);
      PrependLine(line, BlockText(rest));
      assert [line] + rest.lines == b.lines;
      PrependText(line, rest);
    }
  }

  lemma NoLines(b: Block)
    requires ValidBlock(b) && b.lines == []
    ensures ParseBlock(BlockText(b)) == Some(b)
  {
    assert BlockText(b) == Tail(b);
  }

  lemma PrependText(line: string, b: Block)
    ensures BlockText(b.(lines := [line] + b.lines)) == line + CRLF + BlockText(b)
  {
    assert ([line] + b.lines)[1..] == b.lines;
  }

  lemma PrependLine(line: string, rest: string)
    requires IsLine(line)
    ensures ParseBlock(line + CRLF + rest) ==
              match ParseBlock(rest)
              case None => None
              case Some(b) => Some(b.(lines := [line] + b.lines))
  {
    LineFirst(line, rest);
  }

  lemma LineFirst(line: string, rest: string)
    requires IsLine(line)
    ensures var t := line + CRLF + rest;
            && t != "" && !(CRLF <= t)
            && FirstLine(t) == Some(|line|) && t[..|line|] == line && t[|line| + 2..] == rest
  {
    var t := line + CRLF + rest;
    FindLineEnd(line, rest);
    assert t[..|line|] == line;
    assert !OccursAt(t, CRLF, 0);
    CrlfAt(t, 0);
  }

  /** Whatever is read is a well-formed block whose text is the input. */
  lemma {:induction false} ParseSound(t: string)
    requires ParseBlock(t).Some?
    ensures ValidBlock(ParseBlock(t).value) && BlockText(ParseBlock(t).value) == t
    decreases |t|
  {
    if t == "" {
    } else if CRLF <= t {
      assert t == CRLF + t[2..];
    } else {
      var end := FirstLine(t).value;
      BeforeFirstCrlf(t, end);
      ParseSound(t[end + 2..]);
      PrependText(t[..end], ParseBlock(t[end + 2..]).value);
    }
  }

  /** A remainder the header loop rejects: neither the end of the input nor a blank line, and
      either without a CRLF or without a colon before its first CRLF. */
  predicate BadRemainder(t: string) {
    && t != ""
    && !(CRLF <= t)
    && match Find(t, CRLF, 0)
       case None => true
       case Some(end) => !Contains(t[..end], ":")
  }

  /** After these well-formed lines of a text, the rest is left. */
  predicate LinesRead(lines: seq<string>, rest: string, t: string) {
    (forall i | 0 <= i < |lines| :: IsLine(lines[i])) && t == Join(lines) + rest
  }

  predicate LeadsToBad(lines: seq<string>, bad: string, t: string) {
    LinesRead(lines, bad, t) && BadRemainder(bad)
  }

  /** Reading fails exactly when, after some well-formed lines, a bad remainder is reached. */
  lemma RejectedIff(t: string)
    ensures ParseBlock(t).None? <==> exists lines: seq<string>, bad: string :: LeadsToBad(lines, bad, t)
  {
    if ParseBlock(t).None? {
      RejectedHasBadLine(t);
    }
    forall lines: seq<string>, bad: string | LeadsToBad(lines, bad, t)
      ensures ParseBlock(t).None?
    {
      BadLineRejected(lines, bad);
    }
  }

  lemma {:induction false} RejectedHasBadLine(t: string)
    requires ParseBlock(t).None?
    ensures exists lines: seq<string>, bad: string :: LeadsToBad(lines, bad, t)
    decreases |t|
  {
    if FirstLine(t).None? {
      assert LeadsToBad([], t, t);
    } else {
      var end := FirstLine(t).value;
      BeforeFirstCrlf(t, end);
      RejectedHasBadLine(t[end + 2..]);
      var lines: seq<string>, bad: string :| LeadsToBad(lines, bad, t[end + 2..]);
      PrependBad(t[..end], lines, bad, t[end + 2..]);
    }
  }

  lemma PrependBad(line: string, lines: seq<string>, bad: string, t: string)
    requires IsLine(line) && LeadsToBad(lines, bad, t)
    ensures LeadsToBad([line] + lines, bad, line + CRLF + t)
  {
    var all := [line] + lines;
    assert all[1..] == lines;
    assert line + CRLF + t == Join(all) + bad;
  }

  lemma {:induction false} BadLineRejected(lines: seq<string>, bad: string)
    requires forall i | 0 <= i < |lines| :: IsLine(lines[i])
    requires BadRemainder(bad)
    ensures ParseBlock(Join(lines) + bad).None?
  {
    if lines == [] {
      assert Join(lines) + bad == bad;
    } else {
      var rest := Join(lines[1..]) + bad;
      assert Join(lines) + bad == lines[0] + CRLF + rest;
      BadLineRejected(lines[1..], bad);
      PrependLine(lines[0], rest);
    }
  }

  lemma NothingRead(t: string)
    ensures LinesRead([], t, t)
  {
  }

  /** Either the rest starts with one more line, or it is rejected. */
  lemma NextLine(lines: seq<string>, rest: string, t: string)
    requires LinesRead(lines, rest, t) && rest != "" && !(CRLF <= rest)
    ensures FirstLine(rest).None? ==> LeadsToBad(lines, rest, t)
    ensures FirstLine(rest).Some? ==>
              var end := FirstLine(rest).value; LinesRead(lines + [rest[..end]], rest[end + 2..], t)
  {
    if FirstLine(rest).Some? {
      var end := FirstLine(rest).value;
      BeforeFirstCrlf(rest, end);
      OneMoreRead(lines, rest[..end], rest[end + 2..]);
    }
  }

  lemma OneMoreRead(lines: seq<string>, line: string, rest: string)
    ensures Join(lines) + (line + CRLF + rest) == Join(lines + [line]) + rest
  {
    hide Join;
    JoinAppend(lines, line);
    assert Join(lines) + (line + CRLF + rest) == (Join(lines) + line + CRLF) + rest;
  }

  /** A rejected text determines the lines that were accepted, and the remainder that was not. */
  lemma {:induction false} LeadsToBadUnique(
    t: string, lines: seq<string>, bad: string, others: seq<string>, worse: string)
    requires LeadsToBad(lines, bad, t) && LeadsToBad(others, worse, t)
    ensures lines == others && bad == worse
    decreases |lines|
  {
    hide BadRemainder, FirstLine;
    if lines == [] || others == [] {
      NoneAccepted(t, lines, bad);
      NoneAccepted(t, others, worse);
    } else {
      SameFirstLine(t, lines, bad, others, worse);
      LeadsToBadUnique(Join(lines[1..]) + bad, lines[1..], bad, others[1..], worse);
    }
  }

  lemma SameFirstLine(t: string, lines: seq<string>, bad: string, others: seq<string>, worse: string)
    requires LeadsToBad(lines, bad, t) && LeadsToBad(others, worse, t) && lines != [] && others != []
    ensures lines[0] == others[0] && Join(lines[1..]) + bad == Join(others[1..]) + worse
  {
    hide FirstLine, BadRemainder;
    var rest, left := Join(lines[1..]) + bad, Join(others[1..]) + worse;
    assert t == lines[0] + CRLF + rest && t == others[0] + CRLF + left;
    LineFirst(lines[0], rest);
    LineFirst(others[0], left);
  }

  lemma NoneAccepted(t: string, lines: seq<string>, bad: string)
    requires LeadsToBad(lines, bad, t)
    ensures lines == [] ==> bad == t
    ensures lines == [] <==> BadRemainder(t)
  {
    if lines == [] {
      assert t == "" + bad;
    } else {
      var rest := Join(lines[1..]) + bad;
      assert t == lines[0] + CRLF + rest;
      LineFirst(lines[0], rest);
    }
  }
}

/** What the header lines mean: each is cut at its first colon, and a later line overwrites an
    earlier one of the same name. */
module HeaderFields {
  import opened Strings
  import opened HeaderBlock

  function NameOf(line: string): string
    requires Contains(line, ":")
  {
    line[..Find(line, ":", 0).value]
  }

  /** The colon is followed by at least one character before the end of the line. */
  predicate Spaced(line: string)
    requires Contains(line, ":")
  {
    Find(line, ":", 0).value + 2 <= |line|
  }

  /** The field a line denotes, given the text `after` its CRLF. One character after the colon is
      dropped. When there is none to drop, the length of the value wraps around, and the value runs
      from the LF of the line's own CRLF to the end of the input. */
  function FieldOf(line: string, after: string): Field
    requires Contains(line, ":")
  {
    Field(NameOf(line), if Spaced(line) then line[|NameOf(line)| + 2..] else "\n" + after)
  }

  /** The parts of a line: a name without colons, the colon, one character that is dropped, and the
      value; or a name and the colon alone. */
  lemma FieldOfLine(line: string, after: string)
    requires Contains(line, ":")
    ensures var f := FieldOf(line, after);
            && ':' !in f.name
            && (if line == f.name + ":" then f.value == "\n" + after
                else
                  && |f.name| + 2 <= |line|
                  && line == f.name + ":" + [line[|f.name| + 1]] + f.value)
  {
    ContainsChar(line, ':');
    var name := NameOf(line);
    assert line[|name|] == ':';
    assert line == name + ":" + line[|name| + 1..];
  }

  function FieldsOf(lines: seq<string>, tail: string): (fields: seq<Field>)
    requires forall i | 0 <= i < |lines| :: IsLine(lines[i])
    ensures |fields| == |lines|
  {
    if lines == [] then []
    else
      assert IsLine(lines[0]);
      [FieldOf(lines[0], Join(lines[1..]) + tail)] + FieldsOf(lines[1..], tail)
  }

  lemma {:induction false} FieldAt(lines: seq<string>, tail: string, i: nat)
    requires forall i | 0 <= i < |lines| :: IsLine(lines[i])
    requires i < |lines|
    ensures FieldsOf(lines, tail)[i] == FieldOf(lines[i], Join(lines[i + 1..]) + tail)
  {
    if i > 0 {
      FieldAt(lines[1..], tail, i - 1);
      assert lines[i + 1..] == lines[1..][i..];
    }
  }

  /** `insert_or_assign` for each field in turn. */
  function Assign(headers: Headers, fields: seq<Field>): Headers
    decreases |fields|
  {
    if fields == [] then headers
    else Assign(headers[fields[0].name := fields[0].value], fields[1..])
  }

  function HeadersOf(b: Block): Headers
    requires ValidBlock(b)
  {
    Assign(map[], FieldsOf(b.lines, Tail(b)))
  }

  /** Reading header lines from a text into a map: the map afterwards, and the body. */
  function ReadInto(headers: Headers, t: string): Option<(Headers, string)> {
    match ParseBlock(t)
    case None => None
    case Some(b) =>
      ParseSound(t);
      Some((Assign(headers, FieldsOf(b.lines, Tail(b))), b.body))
  }

  /** Reading stops at the end of the text, and at a blank line. */
  lemma ReadEnd(headers: Headers, t: string)
    ensures t == "" ==> ReadInto(headers, t) == Some((headers, ""))
    ensures CRLF <= t ==> ReadInto(headers, t) == Some((headers, t[2..]))
  {
  }

  /** Reading one line ahead, and inserting its field, does not change the outcome. */
  lemma ReadStep(headers: Headers, t: string)
    requires t != "" && !(CRLF <= t)
    ensures FirstLine(t).None? ==> ReadInto(headers, t).None?
    ensures FirstLine(t).Some? ==>
              var end := FirstLine(t).value;
              var field := FieldOf(t[..end], t[end + 2..]);
              ReadInto(headers, t) == ReadInto(headers[field.name := field.value], t[end + 2..])
  {
    if ParseBlock(t).Some? {
      var rest := t[FirstLine(t).value + 2..];
      ParseSound(t);
      ParseSound(rest);
      var all, left := ParseBlock(t).value, ParseBlock(rest).value;
      assert all == left.(lines := [t[..FirstLine(t).value]] + left.lines);
      assert all.lines[1..] == left.lines;
      assert Join(left.lines) + Tail(all) == rest;
    }
  }

  /** No later field has the name of field `i`. */
  predicate IsLast(fields: seq<Field>, i: nat)
    requires i < |fields|
  {
    forall j | i < j < |fields| :: fields[j].name != fields[i].name
  }

  /** The map holds exactly the names of the fields, each with the value of its last occurrence. */
  ghost predicate LastWins(fields: seq<Field>, headers: Headers) {
    && (forall name :: name in headers ==> exists i | 0 <= i < |fields| :: fields[i].name == name)
    && (forall i | 0 <= i < |fields| :: fields[i].name in headers)
    && (forall i | 0 <= i < |fields| && IsLast(fields, i) :: headers[fields[i].name] == fields[i].value)
  }

  lemma {:induction false} AssignOne(headers: Headers, fields: seq<Field>, i: nat)
    requires i < |fields| && IsLast(fields, i)
    ensures fields[i].name in Assign(headers, fields)
    ensures Assign(headers, fields)[fields[i].name] == fields[i].value
    decreases |fields|
  {
    var next := headers[fields[0].name := fields[0].value];
    if i > 0 {
      AssignOne(next, fields[1..], i - 1);
    } else {
      AssignOthers(next, fields[1..], fields[0].name);
    }
  }

  /** A name that no field carries keeps what the map had. */
  lemma {:induction false} AssignOthers(headers: Headers, fields: seq<Field>, name: string)
    requires forall i | 0 <= i < |fields| :: fields[i].name != name
    ensures name in Assign(headers, fields) <==> name in headers
    ensures name in headers ==> Assign(headers, fields)[name] == headers[name]
    decreases |fields|
  {
    if fields != [] {
      AssignOthers(headers[fields[0].name := fields[0].value], fields[1..], name);
    }
  }

  lemma {:induction false} LastIndex(fields: seq<Field>, i: nat) returns (last: nat)
    requires i < |fields|
    ensures i <= last < |fields| && fields[last].name == fields[i].name && IsLast(fields, last)
    decreases |fields| - i
  {
    if j :| i < j < |fields| && fields[j].name == fields[i].name {
      last := LastIndex(fields, j);
    } else {
      last := i;
    }
  }

  lemma AssignLastWins(fields: seq<Field>)
    ensures LastWins(fields, Assign(map[], fields))
  {
    var headers := Assign(map[], fields);
    forall i | 0 <= i < |fields| ensures fields[i].name in headers {
      var last := LastIndex(fields, i);
      AssignOne(map[], fields, last);
    }
    forall i | 0 <= i < |fields| && IsLast(fields, i) ensures headers[fields[i].name] == fields[i].value {
      AssignOne(map[], fields, i);
    }
    forall name | name in headers ensures exists i | 0 <= i < |fields| :: fields[i].name == name {
      if forall i | 0 <= i < |fields| :: fields[i].name != name {
        AssignOthers(map[], fields, name);
      }
    }
  }

  /** `LastWins` leaves no freedom: it determines the map. */
  lemma LastWinsUnique(fields: seq<Field>, headers: Headers)
    ensures LastWins(fields, headers) <==> headers == Assign(map[], fields)
  {
    var result := Assign(map[], fields);
    AssignLastWins(fields);
    if LastWins(fields, headers) {
      forall name ensures name in headers <==> name in result {
      }
      forall name | name in headers ensures headers[name] == result[name] {
        var i: nat :| i < |fields| && fields[i].name == name;
        var last := LastIndex(fields, i);
      }
      assert headers.Keys == result.Keys;
    }
  }

  /** Fields of the same name have the same value. */
  predicate Consistent(fields: seq<Field>) {
    forall i, j | 0 <= i < |fields| && 0 <= j < |fields| && fields[i].name == fields[j].name ::
      fields[i].value == fields[j].value
  }

  /** Inserting consistent fields, in whatever order and however often, gives the same map. */
  lemma OrderIrrelevant(fields: seq<Field>, others: seq<Field>)
    requires Consistent(fields) && forall f :: f in fields <==> f in others
    ensures Assign(map[], fields) == Assign(map[], others)
  {
    var headers := Assign(map[], fields);
    AssignLastWins(fields);
    forall i | 0 <= i < |others|
      ensures others[i].name in headers && headers[others[i].name] == others[i].value
    {
      assert others[i] in fields;
      var j: nat :| j < |fields| && fields[j] == others[i];
      var last := LastIndex(fields, j);
    }
    forall name | name in headers ensures exists i | 0 <= i < |others| :: others[i].name == name {
      var j: nat :| j < |fields| && fields[j].name == name;
      assert fields[j] in others;
      var i: nat :| i < |others| && others[i] == fields[j];
    }
    LastWinsUnique(others, headers);
  }
}
