/** The part of a message that requests and responses share: everything after the last token of the
    start line. */
module MessageRest {
  import opened Strings
  import opened HeaderBlock
  import opened HeaderFields
  import opened HeaderOrder
  import opened HeaderSafety

  /** `eol` are the two characters that are skipped without being looked at; the end of the text may
      cut them short. */
  datatype Rest = Rest(eol: string, block: Block)

  predicate ValidRest(r: Rest) {
    && |r.eol| <= 2
    && ValidBlock(r.block)
    && (|r.eol| < 2 ==> r.block == Block([], false, ""))
  }

  lemma BlockValid(r: Rest)
    requires ValidRest(r)
    ensures ValidBlock(r.block)
  {
  }

  function RestText(r: Rest): string {
    r.eol + BlockText(r.block)
  }

  /** The text of the rest, spelled out. */
  lemma RestSpelled(r: Rest)
    ensures var lines := r.block.lines;
            RestText(r) ==
              r.eol + Flatten(seq(|lines|, i requires 0 <= i < |lines| => lines[i] + "\r\n"))
              + (if r.block.blank then "\r\n" else "") + r.block.body
  {
    hide Join, Flatten;
    JoinSpelled(r.block.lines);
  }

  function ParseRest(text: string): Option<Rest> {
    match ParseBlock(RestAt(text, 2))
    case None => None
    case Some(block) => Some(Rest(if |text| <= 2 then text else text[..2], block))
  }

  lemma RestSound(text: string)
    requires ParseRest(text).Some?
    ensures ValidRest(ParseRest(text).value) && RestText(ParseRest(text).value) == text
  {
    ParseSound(RestAt(text, 2));
    if |text| > 2 {
      assert text == text[..2] + text[2..];
    } else {
      assert RestAt(text, 2) == "";
    }
  }

  lemma RestComplete(r: Rest)
    requires ValidRest(r)
    ensures ParseRest(RestText(r)) == Some(r)
  {
    hide ParseBlock;
    var text := RestText(r);
    ParseComplete(r.block);
    if |r.eol| == 2 {
      assert text[2..] == BlockText(r.block) && text[..2] == r.eol;
      assert RestAt(text, 2) == BlockText(r.block);
      assert |text| == 2 ==> text == r.eol;
    } else {
      assert BlockText(r.block) == "" && text == r.eol;
    }
  }

  /** Reading the rest line by line gives the headers and the body of its block. */
  lemma RestContents(text: string)
    ensures var r := ParseRest(text);
            match ReadInto(map[], RestAt(text, 2))
            case None => r.None?
            case Some((headers, body)) =>
              r.Some? && ValidRest(r.value) && HeadersOf(r.value.block) == headers && r.value.block.body == body
  {
    hide Assign, FieldsOf, BlockText, ParseBlock;
    if ParseRest(text).Some? {
      RestSound(text);
    }
  }

  /** The rest is rejected exactly when, after some well-formed lines, there is neither the end of the
      text, nor a blank line, nor a line with a colon. */
  lemma RestRejectedIff(eol: string, text: string)
    requires |eol| == 2
    ensures ParseRest(eol + text).None? <==> exists lines: seq<string>, bad: string :: LeadsToBad(lines, bad, text)
  {
    hide LeadsToBad, ParseBlock;
    assert RestAt(eol + text, 2) == text;
    RejectedIff(text);
  }

  lemma RestLength(r: Rest)
    ensures |RestText(r)| ==
              |r.eol| + TotalLength(r.block.lines) + (if r.block.blank then 2 else 0) + |r.block.body|
  {
    BlockLength(r.block);
  }

  function PrintRest(headers: Headers, body: string): Rest {
    Rest(CRLF, PrintBlock(headers, body))
  }

  lemma PrintedRest(headers: Headers, body: string)
    ensures var r := PrintRest(headers, body); RestText(r) == CRLF + (Join(r.block.lines) + (CRLF + body))
  {
  }

  /** The head of a message ends with its blank line. */
  predicate IsHead(r: Rest) {
    ValidRest(r) && r.block.blank && r.block.body == ""
  }

  function WithBody(r: Rest, body: string): Rest {
    r.(block := r.block.(body := body))
  }

  lemma BodyAppended(r: Rest, body: string)
    requires IsHead(r)
    ensures ValidRest(WithBody(r, body)) && RestText(WithBody(r, body)) == RestText(r) + body
  {
    hide Join;
    assert BlockText(WithBody(r, body).block) == BlockText(r.block) + body;
  }

  /** The same lines in any order, the same body, and any line end. */
  predicate Rearranged(r: Rest, other: Rest) {
    && |other.eol| <= 2
    && (|other.eol| < 2 ==> other.block == Block([], false, ""))
    && Permuted(r.block, other.block)
  }

  lemma RearrangedValid(r: Rest, other: Rest)
    requires ValidRest(r) && Rearranged(r, other)
    ensures ValidRest(other)
  {
    PermutedValid(r.block, other.block);
  }

  lemma RearrangedBlock(r: Rest, c: Block)
    requires ValidRest(r) && Permuted(r.block, c)
    ensures Rearranged(r, r.(block := c))
  {
    if |r.eol| < 2 {
      assert |multiset(c.lines)| == |c.lines| && |multiset(r.block.lines)| == 0;
    }
  }

  /** Each name of a section of spaced lines has the value of its last line, whatever the dropped
      characters are and whatever follows. */
  lemma SpacedHeaders(r: Rest)
    requires ValidRest(r) && AllSpaced(r.block.lines)
    ensures HeadersOf(r.block) == Assign(map[], SpacedFields(r.block.lines))
    ensures LastWins(SpacedFields(r.block.lines), HeadersOf(r.block))
  {
    SpacedFieldsOf(r.block.lines, Tail(r.block));
    AssignLastWins(SpacedFields(r.block.lines));
  }
}
