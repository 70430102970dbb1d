/** The parts of `std::string` and `std::string_view` the codec relies on. A C++ string is a
    `seq<char>`; `size_t` arithmetic wraps modulo 2^64, and `substr` throws past the end. */
module Strings {

  datatype Option<+T> = None | Some(value: T)

  const CRLF: string := "\r\n"

  /** One more than the largest `size_t`. */
  const SIZE_MODULUS: nat := 0x1_0000_0000_0000_0000

  predicate OccursAt(s: string, pattern: string, i: int) {
    0 <= i && i + |pattern| <= |s| && s[i..i + |pattern|] == pattern
  }

  /** `s.find(pattern, start)`; `None` is `npos`. */
  function Find(s: string, pattern: string, start: nat): (r: Option<nat>)
    ensures r.Some? ==>
              && start <= r.value
              && OccursAt(s, pattern, r.value)
              && forall k: int | start <= k < r.value :: !OccursAt(s, pattern, k)
    ensures r.None? ==> forall k: int | start <= k :: !OccursAt(s, pattern, k)
    decreases |s| - start
  {
    if start + |pattern| > |s| then None
    else if OccursAt(s, pattern, start) then Some(start)
    else Find(s, pattern, start + 1)
  }

  predicate Contains(s: string, pattern: string) {
    Find(s, pattern, 0).Some?
  }

  /** `s.substr(pos, count)`; `None` is the `out_of_range` exception. */
  function Substr(s: string, pos: nat, count: nat): (r: Option<string>)
    ensures r.None? <==> |s| < pos
  {
    if |s| < pos then None
    else Some(if pos + count <= |s| then s[pos..pos + count] else s[pos..])
  }

  /** `s.substr(pos)`. */
  function SubstrFrom(s: string, pos: nat): (r: Option<string>)
    ensures r.None? <==> |s| < pos
  {
    if |s| < pos then None else Some(s[pos..])
  }

  /** What is left of a string from an offset on; nothing when the offset is past the end. */
  function RestAt(s: string, offset: nat): (rest: string)
    ensures offset >= |s| ==> rest == ""
    ensures |rest| == if offset <= |s| then |s| - offset else 0
  {
    if offset <= |s| then s[offset..] else ""
  }

  lemma RestOfRest(s: string, offset: nat, n: nat)
    requires offset + n <= |s|
    ensures s[offset..][n..] == s[offset + n..]
  {
  }

  lemma RestPrefix(s: string, offset: nat, n: nat)
    requires offset + n <= |s|
    ensures s[offset..][..n] == s[offset..offset + n]
  {
  }

  lemma RestAtRest(s: string, offset: nat, n: nat)
    requires offset <= |s|
    ensures RestAt(s[offset..], n) == RestAt(s, offset + n)
  {
  }

  lemma RestAfter(s: string, offset: nat, n: nat, m: nat)
    requires offset + n <= |s|
    ensures RestAt(s[offset..][n..], m) == RestAt(s, offset + n + m)
  {
    RestOfRest(s, offset, n);
    RestAtRest(s, offset + n, m);
  }

  /** `a - b` on `size_t` operands. */
  function SizeSub(a: nat, b: nat): nat {
    (a - b) % SIZE_MODULUS
  }

  /** Subtraction in the 64 bits of a `size_t`. */
  lemma SizeWraps(a: nat, b: nat)
    requires a < 0x1_0000_0000_0000_0000 && b < 0x1_0000_0000_0000_0000
    ensures SizeSub(a, b) == if b <= a then a - b else 0x1_0000_0000_0000_0000 - (b - a)
  {
  }

  lemma SubstrBetween(s: string, i: nat, j: nat)
    requires i <= j <= |s| < SIZE_MODULUS
    ensures Substr(s, i, SizeSub(j, i)) == Some(s[i..j])
  {
    assert SizeSub(j, i) == j - i;
  }

  /** A length that wraps around to the largest `size_t` reaches to the end of the string. */
  lemma SubstrWrapped(s: string, i: nat, j: nat)
    requires j + 1 == i <= |s| < SIZE_MODULUS
    ensures Substr(s, i, SizeSub(j, i)) == Some(s[i..])
  {
    assert SizeSub(j, i) == SIZE_MODULUS - 1;
  }

  /** Searching from an offset is searching the suffix that starts there. */
  lemma FindInSuffix(s: string, pattern: string, start: nat)
    requires start <= |s|
    ensures Find(s, pattern, start).None? <==> Find(s[start..], pattern, 0).None?
    ensures Find(s, pattern, start).Some? ==>
              Find(s, pattern, start).value == start + Find(s[start..], pattern, 0).value
  {
    OccurrencesInSuffix(s, pattern, start);
    var here, there := Find(s, pattern, start), Find(s[start..], pattern, 0);
    if there.Some? {
      assert OccursAt(s, pattern, start + there.value);
    }
    if here.Some? {
      assert OccursAt(s[start..], pattern, here.value - start);
    }
  }

  lemma OccurrencesInSuffix(s: string, pattern: string, start: nat)
    requires start <= |s|
    ensures forall k: int | 0 <= k :: OccursAt(s[start..], pattern, k) <==> OccursAt(s, pattern, start + k)
  {
    forall k: int | 0 <= k
      ensures OccursAt(s[start..], pattern, k) <==> OccursAt(s, pattern, start + k)
    {
      if k + |pattern| <= |s| - start {
        assert s[start..][k..k + |pattern|] == s[start + k..start + k + |pattern|];
      }
    }
  }

  lemma CharAt(s: string, c: char)
    ensures forall k: int :: OccursAt(s, [c], k) <==> 0 <= k < |s| && s[k] == c
  {
    forall k: int ensures OccursAt(s, [c], k) <==> 0 <= k < |s| && s[k] == c {
      if 0 <= k < |s| {
        assert s[k..k + 1] == [s[k]];
      }
    }
  }

  /** A single-character search sees exactly the membership of that character. */
  lemma ContainsChar(s: string, c: char)
    ensures Contains(s, [c]) <==> c in s
    ensures Contains(s, [c]) ==>
              var i := Find(s, [c], 0).value; i < |s| && s[i] == c && c !in s[..i]
  {
    hide Find, OccursAt;
    CharAt(s, c);
  }

  lemma FindChar(s: string, c: char, i: nat)
    requires i < |s| && s[i] == c && c !in s[..i]
    ensures Find(s, [c], 0) == Some(i)
  {
    hide Find, OccursAt;
    CharAt(s, c);
    forall k: int | 0 <= k < i ensures !OccursAt(s, [c], k) {
      assert s[k] in s[..i];
    }
  }

  lemma CrlfAt(s: string, k: int)
    ensures OccursAt(s, CRLF, k) <==> 0 <= k && k + 1 < |s| && s[k] == '\r' && s[k + 1] == '\n'
  {
    if 0 <= k && k + 1 < |s| {
      assert s[k..k + 2] == [s[k], s[k + 1]];
    }
  }

  /** A CRLF-free line is delimited by the CRLF written after it, even when the line ends in CR. */
  lemma FindLineEnd(line: string, rest: string)
    requires !Contains(line, CRLF)
    ensures Find(line + CRLF + rest, CRLF, 0) == Some(|line|)
  {
    var s := line + CRLF + rest;
    CrlfAt(s, |line|);
    forall k: int | 0 <= k < |line| ensures !OccursAt(s, CRLF, k) {
      CrlfAt(s, k);
      CrlfAt(line, k);
      assert !OccursAt(line, CRLF, k);
    }
  }

  lemma CutOut(s: string, i: nat, pattern: string)
    requires OccursAt(s, pattern, i)
    ensures s == s[..i] + pattern + s[i + |pattern|..]
  {
    assert s == s[..i] + s[i..i + |pattern|] + s[i + |pattern|..];
  }

  /** What precedes the first CRLF contains none. */
  lemma BeforeFirstCrlf(s: string, end: nat)
    requires Find(s, CRLF, 0) == Some(end)
    ensures end + 2 <= |s| && !Contains(s[..end], CRLF)
    ensures s == s[..end] + CRLF + s[end + 2..]
  {
    assert s == s[..end] + CRLF + s[end + 2..] by {
      CutOut(s, end, CRLF);
    }
    var line := s[..end];
    if Contains(line, CRLF) {
      var k := Find(line, CRLF, 0).value;
      CrlfAt(line, k);
      CrlfAt(s, k);
      assert false;
    }
  }

  lemma PartFree(a: string, b: string, c: string, pattern: string)
    requires !Contains(a + b + c, pattern)
    ensures !Contains(b, pattern)
  {
    var s := a + b + c;
    forall i: int | 0 <= i && i + |pattern| <= |b| ensures !OccursAt(b, pattern, i) {
      assert s[|a| + i..|a| + i + |pattern|] == b[i..i + |pattern|];
      assert !OccursAt(s, pattern, |a| + i);
    }
  }

  function Flatten(parts: seq<string>): string {
    if parts == [] then "" else parts[0] + Flatten(parts[1..])
  }

  /** Flattening is concatenation: these two laws determine it. */
  lemma {:induction false} FlattenAppend(parts: seq<string>, part: string)
    ensures Flatten([]) == "" && Flatten(parts + [part]) == Flatten(parts) + part
  {
    if parts == [] {
      assert [part][1..] == [];
      assert [] + [part] == [part];
    } else {
      FlattenAppend(parts[1..], part);
      assert (parts + [part])[1..] == parts[1..] + [part];
    }
  }
}
