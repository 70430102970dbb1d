/** The iteration order of a `std::map<std::string, std::string>`: ascending by key. */
module OrderedMap {
  import opened HeaderBlock
  import opened HeaderFields

  /** Lexicographic order of strings, strictly. */
  predicate Before(a: string, b: string) {
    b != "" && (a == "" || a[0] < b[0] || (a[0] == b[0] && Before(a[1..], b[1..])))
  }

  /** One string comes before another if it is a proper prefix of it, or has the smaller character at
      the first place where they differ. */
  lemma {:induction false} BeforeIff(a: string, b: string)
    ensures Before(a, b) <==>
              exists k: nat :: k <= |a| && k < |b| && a[..k] == b[..k] && (k == |a| || a[k] < b[k])
  {
    if Before(a, b) {
      FirstDifference(a, b);
    }
    forall k: nat | k <= |a| && k < |b| && a[..k] == b[..k] && (k == |a| || a[k] < b[k])
      ensures Before(a, b)
    {
      DifferenceDecides(a, b, k);
    }
  }

  lemma {:induction false} FirstDifference(a: string, b: string)
    requires Before(a, b)
    ensures exists k: nat :: k <= |a| && k < |b| && a[..k] == b[..k] && (k == |a| || a[k] < b[k])
  {
    if a == "" || a[0] < b[0] {
      assert a[..0] == b[..0];
    } else {
      FirstDifference(a[1..], b[1..]);
      var k: nat :| k <= |a[1..]| && k < |b[1..]| && a[1..][..k] == b[1..][..k]
                    && (k == |a[1..]| || a[1..][k] < b[1..][k]);
      assert a[..k + 1] == [a[0]] + a[1..][..k] && b[..k + 1] == [b[0]] + b[1..][..k];
    }
  }

  lemma {:induction false} DifferenceDecides(a: string, b: string, k: nat)
    requires k <= |a| && k < |b| && a[..k] == b[..k] && (k == |a| || a[k] < b[k])
    ensures Before(a, b)
  {
    if k > 0 {
      assert a[0] == a[..k][0] == b[..k][0] == b[0];
      assert a[1..][..k - 1] == a[..k][1..] && b[1..][..k - 1] == b[..k][1..];
      DifferenceDecides(a[1..], b[1..], k - 1);
    }
  }

  lemma {:induction false} BeforeTotal(a: string, b: string)
    ensures a == b || Before(a, b) || Before(b, a)
    ensures !(Before(a, b) && Before(b, a)) && !Before(a, a)
  {
    if a != "" {
      BeforeTotal(a[1..], a[1..]);
      if b != "" {
        BeforeTotal(a[1..], b[1..]);
        assert a == [a[0]] + a[1..] && b == [b[0]] + b[1..];
      }
    }
  }

  lemma {:induction false} BeforeTransitive(a: string, b: string, c: string)
    requires Before(a, b) && Before(b, c)
    ensures Before(a, c)
  {
    if a != "" && a[0] == b[0] == c[0] {
      BeforeTransitive(a[1..], b[1..], c[1..]);
    }
  }

  predicate IsFirst(keys: set<string>, key: string) {
    key in keys && forall k | k in keys :: k == key || Before(key, k)
  }

  lemma {:induction false} FirstExists(keys: set<string>)
    requires keys != {}
    ensures exists key :: IsFirst(keys, key)
  {
    var key :| key in keys;
    if keys - {key} == {} {
      assert keys == {key};
      assert IsFirst(keys, key);
    } else {
      FirstExists(keys - {key});
      var other :| IsFirst(keys - {key}, other);
      BeforeTotal(key, other);
      if Before(key, other) {
        forall k | k in keys ensures k == key || Before(key, k) {
          if k != key && k != other {
            BeforeTransitive(key, other, k);
          }
        }
        assert IsFirst(keys, key);
      } else {
        assert IsFirst(keys, other);
      }
    }
  }

  lemma FirstUnique(keys: set<string>, a: string, b: string)
    requires IsFirst(keys, a) && IsFirst(keys, b)
    ensures a == b
  {
    BeforeTotal(a, b);
  }

  function FirstKey(keys: set<string>): (key: string)
    requires keys != {}
    ensures IsFirst(keys, key)
  {
    FirstExists(keys);
    assert forall a, b | IsFirst(keys, a) && IsFirst(keys, b) :: a == b by {
      forall a, b | IsFirst(keys, a) && IsFirst(keys, b) ensures a == b {
        FirstUnique(keys, a, b);
      }
    }
    var key :| key in keys && IsFirst(keys, key);
    key
  }

  /** The entries of a header map in iteration order. */
  function InOrder(headers: Headers): seq<Field>
    decreases |headers|
  {
    if |headers| == 0 then []
    else
      assert headers.Keys != {};
      var key := FirstKey(headers.Keys);
      assert |headers - {key}| < |headers|;
      [Field(key, headers[key])] + InOrder(headers - {key})
  }

  predicate Ascending(fields: seq<Field>) {
    forall i, j | 0 <= i < j < |fields| :: Before(fields[i].name, fields[j].name)
  }

  /** The fields are entries of the map, and no entry is missing. */
  ghost predicate Lists(fields: seq<Field>, headers: Headers) {
    && (forall i | 0 <= i < |fields| :: fields[i].name in headers && headers[fields[i].name] == fields[i].value)
    && (forall name | name in headers :: Field(name, headers[name]) in fields)
  }

  /** Iteration visits every entry exactly once, in strictly ascending order of names. */
  lemma {:induction false} InOrderLists(headers: Headers)
    ensures Ascending(InOrder(headers)) && Lists(InOrder(headers), headers)
    decreases |headers|
  {
    if |headers| > 0 {
      assert headers.Keys != {};
      var key := FirstKey(headers.Keys);
      var rest := headers - {key};
      assert |rest| < |headers|;
      InOrderLists(rest);
      PrependFirst(headers, key, InOrder(rest));
    }
  }

  /** There are as many entries as names. */
  lemma {:induction false} InOrderLength(headers: Headers)
    ensures |InOrder(headers)| == |headers|
    decreases |headers|
  {
    if |headers| > 0 {
      assert headers.Keys != {};
      var key := FirstKey(headers.Keys);
      assert (headers - {key}).Keys == headers.Keys - {key};
      assert |headers - {key}| == |headers| - 1;
      InOrderLength(headers - {key});
    }
  }

  lemma PrependFirst(headers: Headers, key: string, others: seq<Field>)
    requires IsFirst(headers.Keys, key)
    requires Ascending(others) && Lists(others, headers - {key})
    ensures var fields := [Field(key, headers[key])] + others;
            Ascending(fields) && Lists(fields, headers)
  {
    var fields := [Field(key, headers[key])] + others;
    forall name | name in headers ensures Field(name, headers[name]) in fields {
      if name == key {
        assert fields[0] == Field(key, headers[key]);
      } else {
        assert name in headers - {key};
      }
    }
    forall i | 0 <= i < |others| ensures Before(key, others[i].name) {
      assert others[i].name in headers - {key};
    }
  }

  /** Inserting the entries one by one, in iteration order, rebuilds the map. */
  lemma InOrderRebuilds(headers: Headers)
    ensures Assign(map[], InOrder(headers)) == headers
  {
    InOrderLists(headers);
    ListsLastWins(InOrder(headers), headers);
    LastWinsUnique(InOrder(headers), headers);
  }

  lemma ListsLastWins(fields: seq<Field>, headers: Headers)
    requires Lists(fields, headers)
    ensures LastWins(fields, headers)
  {
    forall name | name in headers ensures exists i | 0 <= i < |fields| :: fields[i].name == name {
      assert Field(name, headers[name]) in fields;
    }
  }

  /** There is no other way to list a map in ascending order. */
  lemma {:induction false} InOrderUnique(fields: seq<Field>, headers: Headers)
    requires Ascending(fields) && Lists(fields, headers)
    ensures fields == InOrder(headers)
    decreases |headers|
  {
    EmptyIff(fields, headers);
    if |headers| > 0 {
      var key := fields[0].name;
      HeadIsFirst(fields, headers);
      TailLists(fields, headers);
      InOrderFrom(headers, key);
      InOrderUnique(fields[1..], headers - {key});
      assert fields == [Field(key, headers[key])] + fields[1..];
    }
  }

  lemma EmptyIff(fields: seq<Field>, headers: Headers)
    requires Lists(fields, headers)
    ensures fields == [] <==> |headers| == 0
  {
    if fields != [] {
      assert fields[0].name in headers.Keys;
    }
    if |headers| > 0 {
      assert headers.Keys != {};
      var some :| some in headers.Keys;
      assert Field(some, headers[some]) in fields;
    }
  }

  lemma InOrderFrom(headers: Headers, key: string)
    requires IsFirst(headers.Keys, key)
    ensures |headers - {key}| < |headers|
    ensures InOrder(headers) == [Field(key, headers[key])] + InOrder(headers - {key})
  {
    assert key in headers.Keys;
    FirstUnique(headers.Keys, key, FirstKey(headers.Keys));
  }

  lemma HeadIsFirst(fields: seq<Field>, headers: Headers)
    requires fields != [] && Ascending(fields) && Lists(fields, headers)
    ensures IsFirst(headers.Keys, fields[0].name)
  {
    forall name | name in headers.Keys ensures name == fields[0].name || Before(fields[0].name, name) {
      assert Field(name, headers[name]) in fields;
    }
  }

  lemma TailLists(fields: seq<Field>, headers: Headers)
    requires fields != [] && Ascending(fields) && Lists(fields, headers)
    ensures Ascending(fields[1..]) && Lists(fields[1..], headers - {fields[0].name})
  {
    var rest := headers - {fields[0].name};
    forall name | name in rest ensures Field(name, rest[name]) in fields[1..] {
      assert Field(name, headers[name]) in fields;
    }
    forall i | 0 <= i < |fields| - 1 ensures fields[1..][i].name != fields[0].name {
      BeforeTotal(fields[0].name, fields[i + 1].name);
    }
  }
}
