/**
  Python's ordering of `str` values (code point by code point, a proper
  prefix first) and `sorted` applied to a set of dictionary keys.
*/
module KeyOrder {

  /** `a < b` on Python strings. */
  predicate Less(a: string, b: string)
    decreases |a|
  {
    |b| > 0 && (|a| == 0 || a[0] < b[0] || (a[0] == b[0] && Less(a[1..], b[1..])))
  }

  lemma {:induction false} LessIrreflexive(a: string)
    ensures !Less(a, a)
    decreases |a|
  {
    if |a| > 0 { LessIrreflexive(a[1..]); }
  }

  lemma {:induction false} LessAsymmetric(a: string, b: string)
    requires Less(a, b)
    ensures !Less(b, a)
    decreases |a|
  {
    if |a| > 0 && a[0] == b[0] { LessAsymmetric(a[1..], b[1..]); }
  }

  lemma {:induction false} LessTransitive(a: string, b: string, c: string)
    requires Less(a, b) && Less(b, c)
    ensures Less(a, c)
    decreases |a|
  {
    if |a| > 0 && a[0] == b[0] && b[0] == c[0] {
      LessTransitive(a[1..], b[1..], c[1..]);
    }
  }

  lemma {:induction false} LessTotal(a: string, b: string)
    requires a != b
    ensures Less(a, b) || Less(b, a)
    decreases |a|
  {
    if |a| > 0 && |b| > 0 && a[0] == b[0] {
      assert a == [a[0]] + a[1..] && b == [b[0]] + b[1..];
      LessTotal(a[1..], b[1..]);
    }
  }

  /** Strictly ascending, hence also free of duplicates. */
  predicate StrictlySorted(s: seq<string>)
  {
    forall i, j :: 0 <= i < j < |s| ==> Less(s[i], s[j])
  }

  predicate IsLeast(k: string, keys: set<string>)
  {
    k in keys && forall j :: j in keys && j != k ==> Less(k, j)
  }

  lemma {:induction false} LeastExists(keys: set<string>)
    requires keys != {}
    ensures exists k :: IsLeast(k, keys)
    decreases keys
  {
    var x :| x in keys;
    if keys != {x} {
      LeastExists(keys - {x});
      var m :| IsLeast(m, keys - {x});
      if Less(x, m) {
        forall j | j in keys && j != x ensures Less(x, j) {
          if j != m { LessTransitive(x, m, j); }
        }
        assert IsLeast(x, keys);
      } else {
        LessTotal(x, m);
        assert IsLeast(m, keys);
      }
    } else {
      assert IsLeast(x, keys);
    }
  }

  lemma LeastUnique(k1: string, k2: string, keys: set<string>)
    requires IsLeast(k1, keys) && IsLeast(k2, keys)
    ensures k1 == k2
  {
    if k1 != k2 { LessAsymmetric(k1, k2); }
  }

  /** The smallest key of a non-empty set. */
  function Least(keys: set<string>): (k: string)
    requires keys != {}
    ensures IsLeast(k, keys)
  {
    LeastExists(keys);
    LeastUniqueAll(keys);
    var k :| IsLeast(k, keys); k
  }

  lemma LeastUniqueAll(keys: set<string>)
    ensures forall k1, k2 :: IsLeast(k1, keys) && IsLeast(k2, keys) ==> k1 == k2
  {
    forall k1, k2 | IsLeast(k1, keys) && IsLeast(k2, keys) ensures k1 == k2 {
      LeastUnique(k1, k2, keys);
    }
  }

  /** `sorted(keys)`: every key exactly once, in ascending order. */
  function SortedKeys(keys: set<string>): (r: seq<string>)
    ensures |r| == |keys|
    ensures forall k :: k in r <==> k in keys
    ensures StrictlySorted(r)
    decreases keys
  {
    if keys == {} then []
    else
      var k := Least(keys);
      [k] + SortedKeys(keys - {k})
  }

  /** A strictly sorted sequence is determined by the set of its elements. */
  lemma {:induction false} StrictlySortedUnique(s: seq<string>, t: seq<string>)
    requires StrictlySorted(s) && StrictlySorted(t)
    requires forall k :: k in s <==> k in t
    ensures s == t
    decreases |s|
  {
    assert s != [] ==> s[0] in t;
    assert t != [] ==> t[0] in s;
    if s != [] && t != [] {
      var keys := set k | k in s;
      assert IsLeast(s[0], keys) by {
        forall j | j in keys && j != s[0] ensures Less(s[0], j) {
          var i :| 0 <= i < |s| && s[i] == j;
        }
      }
      assert IsLeast(t[0], keys) by {
        forall j | j in keys && j != t[0] ensures Less(t[0], j) {
          var i :| 0 <= i < |t| && t[i] == j;
        }
      }
      LeastUnique(s[0], t[0], keys);
      forall k ensures k in s[1..] <==> k in t[1..] {
        if k in s[1..] {
          var i :| 1 <= i < |s| && s[i] == k;
          LessIrreflexive(s[0]);
          assert k != t[0];
          assert k in s && k in t;
          var i' :| 0 <= i' < |t| && t[i'] == k;
          assert t[1..][i' - 1] == k;
        }
        if k in t[1..] {
          var i :| 1 <= i < |t| && t[i] == k;
          LessIrreflexive(t[0]);
          assert k != s[0];
          assert k in t && k in s;
          var i' :| 0 <= i' < |s| && s[i'] == k;
          assert s[1..][i' - 1] == k;
        }
      }
      StrictlySortedUnique(s[1..], t[1..]);
      assert s == [s[0]] + s[1..] && t == [t[0]] + t[1..];
    }
  }

  /** `sorted` compares as strings, so `a10` lands between `a1` and `a2`. */
  lemma SortedKeysIsLexicographic()
    ensures SortedKeys({"a1", "a2", "a10"}) == ["a1", "a10", "a2"]
  {
    var want := ["a1", "a10", "a2"];
    assert Less("a1", "a10") by {
      assert Less("1", "10") by { assert Less("", "0"); }
    }
    assert Less("a10", "a2") by { assert Less("10", "2"); }
    assert Less("a1", "a2") by { assert Less("1", "2"); }
    assert StrictlySorted(want);
    StrictlySortedUnique(SortedKeys({"a1", "a2", "a10"}), want);
  }
}
