/** How far a header map depends on the order of the header lines. */
module HeaderOrder {
  import opened Strings
  import opened HeaderBlock
  import opened HeaderFields
  import opened HeaderSafety

  /** The field of a spaced line, which does not depend on what follows the line. */
  function SpacedField(line: string): Field
    requires IsLine(line) && Spaced(line)
  {
    Field(NameOf(line), line[|NameOf(line)| + 2..])
  }

  function SpacedFields(lines: seq<string>): (fields: seq<Field>)
    requires AllSpaced(lines)
    ensures |fields| == |lines|
    ensures forall i | 0 <= i < |lines| :: IsLine(lines[i]) && Spaced(lines[i]) && fields[i] == SpacedField(lines[i])
  {
    seq(|lines|, i requires 0 <= i < |lines| => assert IsLine(lines[i]) && Spaced(lines[i]); SpacedField(lines[i]))
  }

  lemma SpacedFieldsOf(lines: seq<string>, tail: string)
    requires AllSpaced(lines)
    ensures FieldsOf(lines, tail) == SpacedFields(lines)
  {
    forall i: nat | i < |lines| ensures FieldsOf(lines, tail)[i] == SpacedFields(lines)[i] {
      FieldAt(lines, tail, i);
    }
  }

  /** The same lines in another order, with the same blank line and body. */
  predicate Permuted(b: Block, c: Block) {
    multiset(b.lines) == multiset(c.lines) && b.blank == c.blank && b.body == c.body
  }

  lemma SameLines(b: Block, c: Block, line: string)
    requires Permuted(b, c)
    ensures line in b.lines <==> line in c.lines
  {
    assert line in multiset(b.lines) <==> line in multiset(c.lines);
  }

  lemma PermutedValid(b: Block, c: Block)
    requires ValidBlock(b) && Permuted(b, c)
    ensures ValidBlock(c)
  {
    forall i | 0 <= i < |c.lines| ensures IsLine(c.lines[i]) {
      SameLines(b, c, c.lines[i]);
    }
  }

  /** Whatever the order of the lines, the header map is this one. */
  ghost predicate AnyOrder(b: Block, headers: Headers) {
    forall c: Block | Permuted(b, c) :: ValidBlock(c) && HeadersOf(c) == headers
  }

  predicate SameName(b: Block, i: nat, j: nat)
    requires ValidBlock(b) && i < |b.lines| && j < |b.lines|
  {
    NameOf(b.lines[i]) == NameOf(b.lines[j])
  }

  /** The field of a line that is the last one. */
  function LastField(b: Block, i: nat): Field
    requires ValidBlock(b) && i < |b.lines|
  {
    FieldOf(b.lines[i], Tail(b))
  }

  /** Lines of the same name would denote the same field at the end of the section; and all lines are
      spaced, unless there is only one name. */
  predicate OrderFree(b: Block)
    requires ValidBlock(b)
  {
    && (forall i: nat, j: nat | i < |b.lines| && j < |b.lines| && SameName(b, i, j) ::
          LastField(b, i) == LastField(b, j))
    && (AllSpaced(b.lines) || forall i: nat, j: nat | i < |b.lines| && j < |b.lines| :: SameName(b, i, j))
  }

  predicate DistinctNames(b: Block)
    requires ValidBlock(b)
  {
    forall i: nat, j: nat | i < |b.lines| && j < |b.lines| && SameName(b, i, j) :: i == j
  }

  /** Every order of the lines gives the same map exactly under this condition; for lines with pairwise
      different names it says that there is at most one line, or that all are spaced. */
  lemma OrderFreeIff(b: Block)
    requires ValidBlock(b)
    ensures AnyOrder(b, HeadersOf(b)) <==> OrderFree(b)
    ensures DistinctNames(b) ==> (OrderFree(b) <==> |b.lines| <= 1 || AllSpaced(b.lines))
  {
    hide HeadersOf, OrderFree;
    if OrderFree(b) {
      forall c: Block | Permuted(b, c) ensures ValidBlock(c) && HeadersOf(c) == HeadersOf(b) {
        OrderIgnored(b, c);
      }
    }
    if AnyOrder(b, HeadersOf(b)) {
      OrderFreeNeeded(b);
    }
    DistinctOrderFree(b);
  }

  lemma DistinctOrderFree(b: Block)
    requires ValidBlock(b)
    ensures DistinctNames(b) ==> (OrderFree(b) <==> |b.lines| <= 1 || AllSpaced(b.lines))
  {
    hide LastField, AllSpaced;
    if DistinctNames(b) {
      if |b.lines| > 1 {
        assert !SameName(b, 0, 1);
      }
    }
  }

  lemma UnspacedLine(lines: seq<string>) returns (i: nat)
    requires !AllSpaced(lines) && forall i | 0 <= i < |lines| :: IsLine(lines[i])
    ensures i < |lines| && !Spaced(lines[i])
  {
    i :| i < |lines| && !Spaced(lines[i]);
  }

  lemma OrderIgnored(b: Block, c: Block)
    requires ValidBlock(b) && OrderFree(b) && Permuted(b, c)
    ensures ValidBlock(c) && HeadersOf(c) == HeadersOf(b)
  {
    hide HeadersOf;
    PermutedValid(b, c);
    if AllSpaced(b.lines) {
      SpacedOrderIgnored(b, c);
    } else {
      OneNameOrderIgnored(b, c);
    }
  }

  lemma SpacedOrderIgnored(b: Block, c: Block)
    requires ValidBlock(b) && OrderFree(b) && Permuted(b, c) && AllSpaced(b.lines) && ValidBlock(c)
    ensures HeadersOf(c) == HeadersOf(b)
  {
    hide FieldsOf, Assign, NameOf, Spaced;
    forall i | 0 <= i < |c.lines| ensures IsLine(c.lines[i]) && Spaced(c.lines[i]) {
      SameLines(b, c, c.lines[i]);
    }
    var fields, others := SpacedFields(b.lines), SpacedFields(c.lines);
    forall f ensures f in fields <==> f in others {
      SpacedFieldsWithin(b, c, f);
      SpacedFieldsWithin(c, b, f);
    }
    SpacedConsistent(b);
    OrderIrrelevant(fields, others);
    SpacedFieldsOf(b.lines, Tail(b));
    SpacedFieldsOf(c.lines, Tail(c));
  }

  lemma SpacedConsistent(b: Block)
    requires ValidBlock(b) && OrderFree(b) && AllSpaced(b.lines)
    ensures Consistent(SpacedFields(b.lines))
  {
    var fields := SpacedFields(b.lines);
    forall i: nat, j: nat | i < |fields| && j < |fields| && fields[i].name == fields[j].name
      ensures fields[i].value == fields[j].value
    {
      assert SameName(b, i, j);
      assert fields[i] == LastField(b, i) && fields[j] == LastField(b, j);
    }
  }

  lemma SpacedFieldsWithin(b: Block, c: Block, f: Field)
    requires AllSpaced(b.lines) && AllSpaced(c.lines) && Permuted(b, c)
    ensures f in SpacedFields(b.lines) ==> f in SpacedFields(c.lines)
  {
    if f in SpacedFields(b.lines) {
      var i: nat :| i < |b.lines| && SpacedFields(b.lines)[i] == f;
      SameLines(b, c, b.lines[i]);
      var j: nat :| j < |c.lines| && c.lines[j] == b.lines[i];
      assert SpacedFields(c.lines)[j] == f;
    }
  }

  /** With a single name the last line alone decides. */
  lemma OneNameOrderIgnored(b: Block, c: Block)
    requires ValidBlock(b) && OrderFree(b) && Permuted(b, c) && !AllSpaced(b.lines) && ValidBlock(c)
    ensures HeadersOf(c) == HeadersOf(b)
  {
    hide LastField, HeadersOf;
    assert |multiset(b.lines)| == |b.lines| && |multiset(c.lines)| == |c.lines|;
    var n := |b.lines| - 1;
    var u := UnspacedLine(b.lines);
    forall line | line in b.lines ensures IsLine(line) && NameOf(line) == NameOf(b.lines[u]) {
      var i: nat :| i < |b.lines| && b.lines[i] == line;
      assert SameName(b, i, u);
    }
    forall line | line in c.lines ensures line in b.lines {
      SameLines(b, c, line);
    }
    LastLineDecides(b, NameOf(b.lines[u]));
    LastLineDecides(c, NameOf(b.lines[u]));
    var i: nat :| i < |b.lines| && b.lines[i] == c.lines[n];
    assert SameName(b, i, n);
    SameLastField(b, i, c, n);
  }

  lemma SameLastField(b: Block, i: nat, c: Block, j: nat)
    requires ValidBlock(b) && ValidBlock(c) && Permuted(b, c)
    requires i < |b.lines| && j < |c.lines| && b.lines[i] == c.lines[j]
    ensures LastField(b, i) == LastField(c, j)
  {
    assert Tail(b) == Tail(c);
  }

  lemma LastLineDecides(b: Block, name: string)
    requires ValidBlock(b) && b.lines != []
    requires forall line | line in b.lines :: IsLine(line) && NameOf(line) == name
    ensures var last := LastField(b, |b.lines| - 1); HeadersOf(b) == map[last.name := last.value]
  {
    hide HeadersOf, LastField, NameOf;
    var last, headers := LastField(b, |b.lines| - 1), HeadersOf(b);
    LastLineCounts(b);
    forall key | key in headers ensures key == name {
      HeadersDenoted(b);
      var i: nat :| i < |b.lines| && NameOf(b.lines[i]) == key;
    }
    assert headers.Keys == {last.name};
    MapsEqual(headers, map[last.name := last.value]);
  }

  lemma DecidedValue(b: Block, i: nat)
    requires ValidBlock(b) && i < |b.lines| && Decides(b.lines, i)
    ensures var name := NameOf(b.lines[i]); name in HeadersOf(b) && HeadersOf(b)[name] == ValueAt(b, i)
  {
    hide HeadersOf, ValueAt, NameOf;
    HeadersDenoted(b);
  }

  lemma LastLineCounts(b: Block)
    requires ValidBlock(b) && b.lines != []
    ensures var last := LastField(b, |b.lines| - 1);
            && last.name == NameOf(b.lines[|b.lines| - 1])
            && last.name in HeadersOf(b) && HeadersOf(b)[last.name] == last.value
  {
    hide HeadersOf, NameOf, Spaced;
    var n := |b.lines| - 1;
    assert Decides(b.lines, n);
    DecidedValue(b, n);
    assert b.lines[n + 1..] == [] && Join([]) + Tail(b) == Tail(b);
  }

  /** An unspaced line before a last line of another name swallows that line. */
  lemma LineBeforeLast(b: Block)
    requires ValidBlock(b) && |b.lines| >= 2
    requires var n := |b.lines| - 1; !SameName(b, n - 1, n) && !Spaced(b.lines[n - 1])
    ensures var n := |b.lines| - 1; var name := NameOf(b.lines[n - 1]);
            name in HeadersOf(b) && HeadersOf(b)[name] == "\n" + (b.lines[n] + CRLF + Tail(b))
  {
    hide HeadersOf, NameOf, Spaced, Join, Tail;
    var n := |b.lines| - 1;
    assert Decides(b.lines, n - 1);
    DecidedValue(b, n - 1);
    LastLineText(b);
  }

  lemma LastLineText(b: Block)
    requires ValidBlock(b) && b.lines != []
    ensures var n := |b.lines| - 1; Join(b.lines[n..]) + Tail(b) == b.lines[n] + CRLF + Tail(b)
  {
    var n := |b.lines| - 1;
    assert b.lines[n..] == [b.lines[n]];
    assert Join([b.lines[n]]) == b.lines[n] + CRLF + Join([]);
  }

  function MovedLast(b: Block, i: nat): Block
    requires i < |b.lines|
  {
    b.(lines := b.lines[..i] + b.lines[i + 1..] + [b.lines[i]])
  }

  lemma MovedPermuted(b: Block, i: nat)
    requires ValidBlock(b) && i < |b.lines|
    ensures var c := MovedLast(b, i);
            && Permuted(b, c) && ValidBlock(c)
            && |c.lines| == |b.lines| && c.lines[|b.lines| - 1] == b.lines[i] && Tail(c) == Tail(b)
  {
    assert b.lines == b.lines[..i] + [b.lines[i]] + b.lines[i + 1..];
    PermutedValid(b, MovedLast(b, i));
  }

  lemma OrderFreeNeeded(b: Block)
    requires ValidBlock(b) && AnyOrder(b, HeadersOf(b))
    ensures OrderFree(b)
  {
    hide HeadersOf, AnyOrder, LastField, AllSpaced, MovedLast;
    forall i: nat, j: nat | i < |b.lines| && j < |b.lines| && SameName(b, i, j)
      ensures LastField(b, i) == LastField(b, j)
    {
      MovedValue(b, i);
      MovedValue(b, j);
    }
    if !AllSpaced(b.lines) {
      var u := UnspacedLine(b.lines);
      forall i: nat, j: nat | i < |b.lines| && j < |b.lines| ensures SameName(b, i, j) {
        UnspacedAlone(b, u, i);
        UnspacedAlone(b, u, j);
      }
    }
  }

  lemma MovedValue(b: Block, i: nat)
    requires ValidBlock(b) && AnyOrder(b, HeadersOf(b)) && i < |b.lines|
    ensures var f := LastField(b, i);
            && f.name == NameOf(b.lines[i])
            && f.name in HeadersOf(b) && HeadersOf(b)[f.name] == f.value
  {
    hide HeadersOf, MovedLast;
    var c := MovedLast(b, i);
    MovedPermuted(b, i);
    LastLineCounts(c);
    assert LastField(c, |c.lines| - 1) == LastField(b, i);
  }

  /** A line that is not spaced leaves no room for another name: before a last line of that name, its
      value is longer than at the end. */
  lemma UnspacedAlone(b: Block, i: nat, j: nat)
    requires ValidBlock(b) && AnyOrder(b, HeadersOf(b)) && i < |b.lines| && j < |b.lines| && !Spaced(b.lines[i])
    ensures SameName(b, i, j)
  {
    hide HeadersOf, AnyOrder, MovedLast, Permuted, Spaced;
    if !SameName(b, i, j) {
      MovedValue(b, i);
      var d := MovedTwice(b, i, j);
      assert |"\n" + (b.lines[j] + CRLF + Tail(b))| > |"\n" + Tail(b)|;
      LineBeforeLast(d);
      AnyOrderHolds(b, d);
    }
  }

  lemma AnyOrderHolds(b: Block, c: Block)
    requires ValidBlock(b) && AnyOrder(b, HeadersOf(b)) && Permuted(b, c)
    ensures ValidBlock(c) && HeadersOf(c) == HeadersOf(b)
  {
  }

  /** The lines with line `i` and then line `j` moved to the end. */
  lemma MovedTwice(b: Block, i: nat, j: nat) returns (d: Block)
    requires ValidBlock(b) && i < |b.lines| && j < |b.lines| && i != j
    ensures Permuted(b, d) && ValidBlock(d) && |d.lines| == |b.lines| && Tail(d) == Tail(b)
    ensures var n := |b.lines| - 1; d.lines[n - 1] == b.lines[i] && d.lines[n] == b.lines[j]
  {
    var c, k := MovedLast(b, i), if j < i then j else j - 1;
    MovedPermuted(b, i);
    assert c.lines[k] == b.lines[j];
    d := MovedLast(c, k);
    MovedPermuted(c, k);
    assert d.lines[|b.lines| - 2] == c.lines[|b.lines| - 1];
  }
}
