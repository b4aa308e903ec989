/** The order of sort.Strings, and what ranging over a Go map followed by a sort produces. */
module StringOrder {

  /** Lexicographic order, character by character. */
  predicate Less(a: string, b: string) {
    if b == [] then false
    else if a == [] then true
    else if a[0] != b[0] then a[0] < b[0]
    else Less(a[1..], b[1..])
  }

  lemma {:induction false} LessIrreflexive(a: string)
    ensures !Less(a, a)
  {
    if a != [] {
      LessIrreflexive(a[1..]);
    }
  }

  lemma {:induction false} LessTotal(a: string, b: string)
    ensures Less(a, b) || a == b || Less(b, a)
  {
    if a != [] && b != [] && a[0] == b[0] {
      LessTotal(a[1..], b[1..]);
      assert a == [a[0]] + a[1..] && b == [b[0]] + b[1..];
    }
  }

  lemma {:induction false} LessTransitive(a: string, b: string, c: string)
    requires Less(a, b) && Less(b, c)
    ensures Less(a, c)
  {
    if a != [] && a[0] == b[0] && b[0] == c[0] {
      LessTransitive(a[1..], b[1..], c[1..]);
    }
  }

  lemma {:induction false} LessAsymmetric(a: string, b: string)
    requires Less(a, b)
    ensures !Less(b, a)
  {
    if Less(b, a) {
      LessTransitive(a, b, a);
      LessIrreflexive(a);
    }
  }

  ghost predicate Ascending(keys: seq<string>) {
    forall i, j :: 0 <= i < j < |keys| ==> Less(keys[i], keys[j])
  }

  /** keys lists each member of s exactly once. */
  ghost predicate Enumerates(keys: seq<string>, s: set<string>) {
    && (forall k :: k in keys <==> k in s)
    && (forall i, j :: 0 <= i < j < |keys| ==> keys[i] != keys[j])
  }

  function InsertKey(key: string, keys: seq<string>): seq<string> {
    if keys == [] || Less(key, keys[0]) then [key] + keys
    else [keys[0]] + InsertKey(key, keys[1..])
  }

  function Sort(keys: seq<string>): seq<string> {
    if keys == [] then [] else InsertKey(keys[0], Sort(keys[1..]))
  }

  lemma {:induction false} InsertKeyAscends(key: string, keys: seq<string>)
    requires Ascending(keys) && key !in keys
    ensures Ascending(InsertKey(key, keys))
    ensures forall k :: k in InsertKey(key, keys) <==> k == key || k in keys
  {
    if keys != [] {
      if Less(key, keys[0]) {
        forall i | 0 < i < |keys| ensures Less(key, keys[i]) {
          LessTransitive(key, keys[0], keys[i]);
        }
      } else {
        LessTotal(key, keys[0]);
        InsertKeyAscends(key, keys[1..]);
        var rest := InsertKey(key, keys[1..]);
        assert forall i :: 0 <= i < |rest| ==> rest[i] in rest;
        assert keys == [keys[0]] + keys[1..];
        assert forall k :: k in keys[1..] ==> Less(keys[0], k);
      }
    }
  }

  lemma {:induction false} SortAscends(keys: seq<string>)
    requires forall i, j :: 0 <= i < j < |keys| ==> keys[i] != keys[j]
    ensures Ascending(Sort(keys))
    ensures forall k :: k in Sort(keys) <==> k in keys
  {
    if keys != [] {
      SortAscends(keys[1..]);
      InsertKeyAscends(keys[0], Sort(keys[1..]));
      assert keys == [keys[0]] + keys[1..];
    }
  }

  /** Two ascending listings of the same keys are the same listing. */
  lemma {:induction false} AscendingIsUnique(a: seq<string>, b: seq<string>)
    requires Ascending(a) && Ascending(b)
    requires forall k :: k in a <==> k in b
    ensures a == b
  {
    assert a != [] ==> a[0] in a;
    assert b != [] ==> b[0] in b;
    if a != [] && b != [] {
      assert a[0] in b && b[0] in a;
      var i :| 0 <= i < |b| && b[i] == a[0];
      var j :| 0 <= j < |a| && a[j] == b[0];
      if i > 0 && j > 0 {
        LessAsymmetric(a[0], b[0]);
      }
      assert a[0] == b[0];
      forall k ensures k in a[1..] <==> k in b[1..] {
        TailMembers(a, k);
        TailMembers(b, k);
      }
      AscendingIsUnique(a[1..], b[1..]);
      assert a == [a[0]] + a[1..] && b == [b[0]] + b[1..];
    }
  }

  lemma {:induction false} TailMembers(a: seq<string>, k: string)
    requires Ascending(a) && a != []
    ensures k in a[1..] <==> k in a && k != a[0]
  {
    LessIrreflexive(a[0]);
    assert a == [a[0]] + a[1..];
  }

  /** keys is the ascending listing of s. */
  ghost predicate AscendingListing(keys: seq<string>, s: set<string>) {
    && Ascending(keys)
    && (forall k :: k in keys <==> k in s)
  }

  /** The ascending listing of a set of keys. */
  ghost function SortedKeys(s: set<string>): (keys: seq<string>)
    ensures AscendingListing(keys, s)
  {
    if s == {} then []
    else
      var k :| k in s;
      var rest := SortedKeys(s - {k});
      InsertKeyAscends(k, rest);
      InsertKey(k, rest)
  }

  lemma {:induction false} ListingLength(keys: seq<string>, s: set<string>)
    requires AscendingListing(keys, s)
    ensures |keys| == |s|
    decreases |keys|
  {
    if keys == [] {
      assert s == {};
    } else {
      forall k ensures k in keys[1..] <==> k in s - {keys[0]} {
        TailMembers(keys, k);
      }
      assert keys[0] in keys;
      ListingLength(keys[1..], s - {keys[0]});
    }
  }

  lemma {:induction false} SortOfEnumeration(order: seq<string>, s: set<string>)
    requires Enumerates(order, s)
    ensures AscendingListing(Sort(order), s)
  {
    SortAscends(order);
  }

  /** Ranging over a map in whatever order and sorting the keys gives the one ascending listing. */
  method CollectAndSort(s: set<string>) returns (keys: seq<string>)
    ensures AscendingListing(keys, s)
  {
    var order: seq<string> := [];
    var left := s;
    while left != {}
      invariant left <= s
      invariant Enumerates(order, s - left)
      decreases left
    {
      var k :| k in left;
      order := order + [k];
      left := left - {k};
    }
    assert s - left == s;
    SortOfEnumeration(order, s);
    keys := Sort(order);
  }
}
