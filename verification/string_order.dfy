/** The ordering `std::map<std::string, _>` iterates in: lexicographic comparison
    of names, a proper prefix coming first. Characters compare by code point,
    which is `std::char_traits<char>`'s unsigned-byte order for names made of
    bytes. */
module StringOrder {

  predicate StrLess(a: string, b: string)
  {
    if |a| == 0 then |b| > 0
    else if |b| == 0 then false
    else if a[0] < b[0] then true
    else if a[0] == b[0] then StrLess(a[1..], b[1..])
    else false
  }

  lemma {:induction false} StrLessIrreflexive(a: string)
    ensures !StrLess(a, a)
  {
    if |a| > 0 {
      StrLessIrreflexive(a[1..]);
    }
  }

  lemma {:induction false} StrLessTransitive(a: string, b: string, c: string)
    requires StrLess(a, b) && StrLess(b, c)
    ensures StrLess(a, c)
  {
    if |a| > 0 && a[0] == b[0] && b[0] == c[0] {
      StrLessTransitive(a[1..], b[1..], c[1..]);
    }
  }

  lemma {:induction false} StrLessTotal(a: string, b: string)
    requires a != b
    ensures StrLess(a, b) || StrLess(b, a)
  {
    if |a| > 0 && |b| > 0 && a[0] == b[0] {
      assert a == [a[0]] + a[1..] && b == [b[0]] + b[1..];
      StrLessTotal(a[1..], b[1..]);
    }
  }

  /** Strictly increasing, hence free of duplicates. */
  ghost predicate StrictlySorted(ks: seq<string>)
  {
    forall i, j :: 0 <= i < j < |ks| ==> StrLess(ks[i], ks[j])
  }

  /** Inserts a new key at its place in a strictly sorted sequence. */
  function InsertSorted(ks: seq<string>, k: string): (r: seq<string>)
    requires StrictlySorted(ks)
    requires k !in ks
    ensures StrictlySorted(r)
    ensures |r| == |ks| + 1
    ensures forall x :: x in r <==> x in ks || x == k
    decreases |ks|
  {
    if |ks| == 0 then [k]
    else if StrLess(k, ks[0]) then
      assert forall j :: 0 <= j < |ks| ==> StrLess(k, ks[j]) by {
        forall j | 0 < j < |ks| { StrLessTransitive(k, ks[0], ks[j]); }
      }
      [k] + ks
    else
      StrLessTotal(k, ks[0]);
      var rest := InsertSorted(ks[1..], k);
      assert forall x :: x in rest ==> StrLess(ks[0], x) by {
        forall x | x in rest ensures StrLess(ks[0], x) {
          if x != k {
            var j :| 0 <= j < |ks[1..]| && ks[1..][j] == x;
            assert x == ks[j + 1];
          }
        }
      }
      [ks[0]] + rest
  }

  /** Two strictly sorted sequences with the same elements are equal: the key
      order of a set is determined by the set. */
  lemma {:induction false} SortedUnique(a: seq<string>, b: seq<string>)
    requires StrictlySorted(a) && StrictlySorted(b)
    requires forall k :: k in a <==> k in b
    ensures a == b
    decreases |a|
  {
    if |b| > 0 {
      assert b[0] in a;
    }
    if |a| > 0 {
      assert a[0] in b;
      if a[0] != b[0] {
        var i :| 0 <= i < |a| && a[i] == b[0];
        var j :| 0 <= j < |b| && b[j] == a[0];
        StrLessTransitive(a[0], b[0], a[0]);
        StrLessIrreflexive(a[0]);
        assert false;
      }
      forall k | k in a[1..]
        ensures k in b[1..]
      {
        var i :| 1 <= i < |a| && a[i] == k;
        StrLessIrreflexive(k);
        assert k in a;
        var j :| 0 <= j < |b| && b[j] == k;
        assert j != 0;
        assert b[1..][j - 1] == k;
      }
      forall k | k in b[1..]
        ensures k in a[1..]
      {
        var j :| 1 <= j < |b| && b[j] == k;
        StrLessIrreflexive(k);
        assert k in b;
        var i :| 0 <= i < |a| && a[i] == k;
        assert i != 0;
        assert a[1..][i - 1] == k;
      }
      SortedUnique(a[1..], b[1..]);
      assert a == [a[0]] + a[1..] && b == [b[0]] + b[1..];
    }
  }

  /** The keys of a set in the order a `std::map` iterator visits them. */
  ghost function KeyOrder(keys: set<string>): (ks: seq<string>)
    ensures StrictlySorted(ks)
    ensures forall k :: k in ks <==> k in keys
    ensures |ks| == |keys|
    decreases keys
  {
    if keys == {} then []
    else
      var k :| k in keys;
      InsertSorted(KeyOrder(keys - {k}), k)
  }

  /** Lists a key set in the map's iteration order. */
  method SortedKeys(keys: set<string>) returns (ks: seq<string>)
    ensures ks == KeyOrder(keys)
  {
    ks := [];
    var remaining := keys;
    while remaining != {}
      invariant remaining <= keys
      invariant StrictlySorted(ks)
      invariant forall k :: k in ks <==> k in keys && k !in remaining
      decreases |remaining|
    {
      var k :| k in remaining;
      ks := InsertSorted(ks, k);
      remaining := remaining - {k};
    }
    SortedUnique(ks, KeyOrder(keys));
  }
}
