/**
 * sort.Strings on the keys of a map: Go's `<` on strings (lexicographic by
 * code point, which for UTF-8 is the byte order Go compares) and the ascending
 * arrangement of a finite key set.
 */
module Sort {

  /** Go's `a < b` on strings. */
  predicate Below(a: string, b: string): (r: bool)
    ensures r ==> a != b
    ensures |a| < |b| && a == b[..|a|] ==> r
    decreases |a|
  {
    if |a| == 0 then |b| > 0
    else if |b| == 0 then false
    else a[0] < b[0] || (a[0] == b[0] && Below(a[1..], b[1..]))
  }

  lemma {:induction false} BelowIrreflexive(a: string)
    ensures !Below(a, a)
    decreases |a|
  {
    if |a| > 0 {
      BelowIrreflexive(a[1..]);
    }
  }

  lemma {:induction false} BelowTransitive(a: string, b: string, c: string)
    requires Below(a, b) && Below(b, c)
    ensures Below(a, c)
    decreases |a|
  {
    if |a| > 0 && a[0] == b[0] && b[0] == c[0] {
      BelowTransitive(a[1..], b[1..], c[1..]);
    }
  }

  lemma {:induction false} BelowTotal(a: string, b: string)
    ensures a == b || Below(a, b) || Below(b, a)
    decreases |a|
  {
    if |a| > 0 && |b| > 0 && a[0] == b[0] {
      BelowTotal(a[1..], b[1..]);
      if a[1..] == b[1..] {
        assert a == [a[0]] + a[1..] && b == [b[0]] + b[1..];
      }
    }
  }

  lemma BelowAsymmetric(a: string, b: string)
    requires Below(a, b)
    ensures !Below(b, a)
  {
    if Below(b, a) {
      BelowTransitive(a, b, a);
      BelowIrreflexive(a);
    }
  }

  predicate IsLeast(k: string, s: set<string>)
  {
    k in s && forall j :: j in s && j != k ==> Below(k, j)
  }

  lemma {:induction false} LeastExists(s: set<string>)
    requires s != {}
    ensures exists k :: IsLeast(k, s)
    decreases |s|
  {
    var x :| x in s;
    if s != {x} {
      var rest := s - {x};
      LeastExists(rest);
      var m :| IsLeast(m, rest);
      BelowTotal(x, m);
      if Below(x, m) {
        forall j | j in s && j != x ensures Below(x, j) {
          if j != m { BelowTransitive(x, m, j); }
        }
        assert IsLeast(x, s);
      } else {
        assert IsLeast(m, s);
      }
    } else {
      assert IsLeast(x, s);
    }
  }

  lemma LeastUnique(k1: string, k2: string, s: set<string>)
    requires IsLeast(k1, s) && IsLeast(k2, s)
    ensures k1 == k2
  {
    if k1 != k2 {
      BelowAsymmetric(k1, k2);
    }
  }

  ghost function Least(s: set<string>): (k: string)
    requires s != {}
    ensures IsLeast(k, s)
  {
    LeastExists(s);
    var k :| IsLeast(k, s); k
  }

  ghost predicate StrictlySorted(keys: seq<string>)
  {
    forall i, j :: 0 <= i < j < |keys| ==> Below(keys[i], keys[j])
  }

  /** The keys of `s` in ascending order: what sort.Strings leaves in a slice holding them. */
  ghost function SortedKeys(s: set<string>): (keys: seq<string>)
    ensures StrictlySorted(keys)
    ensures forall k :: k in keys <==> k in s
    ensures |keys| == |s|
    decreases |s|
  {
    if s == {} then []
    else
      var k := Least(s);
      var rest := SortedKeys(s - {k});
      assert forall j :: 0 <= j < |rest| ==> Below(k, rest[j]) by {
        forall j | 0 <= j < |rest| ensures Below(k, rest[j]) {
          assert rest[j] in s - {k};
        }
      }
      [k] + rest
  }

  predicate Distinct(keys: seq<string>)
  {
    forall i, j :: 0 <= i < j < |keys| ==> keys[i] != keys[j]
  }

  lemma StrictlySortedIsDistinct(keys: seq<string>)
    requires StrictlySorted(keys)
    ensures Distinct(keys)
  {
    forall i, j | 0 <= i < j < |keys| ensures keys[i] != keys[j] {
      if keys[i] == keys[j] { BelowIrreflexive(keys[i]); }
    }
  }

  /** The ascending arrangement starts with the least key. */
  lemma PeelLeast(s: set<string>, k: string)
    requires IsLeast(k, s)
    ensures SortedKeys(s) == [k] + SortedKeys(s - {k})
  {
    LeastUnique(k, Least(s), s);
  }

  /** Moving the least remaining key to the end of the sorted prefix keeps the whole arrangement. */
  lemma SelectLeast(sorted: seq<string>, rest: set<string>, k: string)
    requires IsLeast(k, rest)
    ensures sorted + SortedKeys(rest) == (sorted + [k]) + SortedKeys(rest - {k})
  {
    PeelLeast(rest, k);
    var tail := SortedKeys(rest - {k});
    assert sorted + ([k] + tail) == (sorted + [k]) + tail;
  }

  /** sort.Strings applied to a slice of distinct keys. */
  method SortStrings(keys: seq<string>) returns (sorted: seq<string>)
    requires Distinct(keys)
    ensures sorted == SortedKeys(set k | k in keys)
    ensures |sorted| == |keys|
  {
    ghost var all := set k | k in keys;
    var rest := set k | k in keys;
    sorted := [];
    while rest != {}
      invariant rest <= all
      invariant sorted + SortedKeys(rest) == SortedKeys(all)
      decreases rest
    {
      LeastExists(rest);
      var k :| IsLeast(k, rest);
      SelectLeast(sorted, rest, k);
      sorted := sorted + [k];
      rest := rest - {k};
    }
    assert sorted == SortedKeys(all);
    DistinctCardinality(keys);
  }

  lemma {:induction false} DistinctCardinality(keys: seq<string>)
    requires Distinct(keys)
    ensures |set k | k in keys| == |keys|
  {
    if keys != [] {
      var last := keys[|keys| - 1];
      var init := keys[..|keys| - 1];
      assert Distinct(init);
      DistinctCardinality(init);
      assert (set k | k in keys) == (set k | k in init) + {last};
      assert last !in (set k | k in init);
    }
  }
}
