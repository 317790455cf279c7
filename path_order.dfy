/**
 The order in which `compare` lists paths: Python's `sorted` on `str`, that is
 lexicographic order on code points in which a proper prefix comes first.
 */
module PathOrder {

  /** Strict lexicographic order on strings. */
  predicate Less(a: string, b: string)
    decreases |a|
  {
    if a == [] then b != []
    else if b == [] then false
    else a[0] < b[0] || (a[0] == b[0] && Less(a[1..], b[1..]))
  }

  lemma {:induction false} LessIrreflexive(a: string)
    ensures !Less(a, a)
    decreases |a|
  {
    if a != [] {
      LessIrreflexive(a[1..]);
    }
  }

  /** No two strings are each below the other. */
  lemma {:induction false} LessAsymmetric(a: string, b: string)
    ensures !(Less(a, b) && Less(b, a))
    decreases |a|
  {
    if a != [] && b != [] && a[0] == b[0] {
      LessAsymmetric(a[1..], b[1..]);
    }
  }

  lemma {:induction false} LessTransitive(a: string, b: string, c: string)
    requires Less(a, b) && Less(b, c)
    ensures Less(a, c)
    decreases |a|
  {
    if a != [] && a[0] == b[0] && b[0] == c[0] {
      LessTransitive(a[1..], b[1..], c[1..]);
    }
  }

  /** Any two distinct strings are ordered one way or the other. */
  lemma {:induction false} LessTotal(a: string, b: string)
    requires a != b
    ensures Less(a, b) || Less(b, a)
    decreases |a|
  {
    if a != [] && b != [] && a[0] == b[0] {
      assert a == [a[0]] + a[1..] && b == [b[0]] + b[1..];
      LessTotal(a[1..], b[1..]);
    }
  }

  /** Strictly increasing, hence also free of duplicates. */
  predicate StrictlySorted(s: seq<string>)
  {
    forall i, j :: 0 <= i < j < |s| ==> Less(s[i], s[j])
  }

  /** `s` is the sorted list of the set `keys`: what `sorted(list(keys))` returns. */
  ghost predicate SortedListOf(s: seq<string>, keys: set<string>)
  {
    StrictlySorted(s) && forall p :: p in s <==> p in keys
  }

  lemma SortedNoDuplicates(s: seq<string>)
    requires StrictlySorted(s)
    ensures forall i, j :: 0 <= i < j < |s| ==> s[i] != s[j]
  {
    forall i, j | 0 <= i < j < |s|
      ensures s[i] != s[j]
    {
      LessIrreflexive(s[i]);
    }
  }

  /** The sorted list of a set has one entry per member. */
  lemma {:induction false} SortedListLength(s: seq<string>, keys: set<string>)
    requires SortedListOf(s, keys)
    ensures |s| == |keys|
  {
    if s != [] {
      var rest := keys - {s[0]};
      forall p
        ensures p in s[1..] <==> p in rest
      {
        if p in s[1..] {
          LessIrreflexive(p);
        }
      }
      SortedListLength(s[1..], rest);
    }
  }

  /** The head of a strictly sorted list is below every other member of the list. */
  lemma HeadIsLeast(s: seq<string>, p: string)
    requires StrictlySorted(s) && p in s
    ensures p == s[0] || Less(s[0], p)
  {
  }

  /** A set has exactly one sorted list: sorting is deterministic. */
  lemma {:induction false} SortedListUnique(a: seq<string>, b: seq<string>, keys: set<string>)
    requires SortedListOf(a, keys) && SortedListOf(b, keys)
    ensures a == b
  {
    SortedListLength(a, keys);
    SortedListLength(b, keys);
    if a != [] {
      var x, y := a[0], b[0];
      HeadIsLeast(b, x);
      HeadIsLeast(a, y);
      LessAsymmetric(x, y);
      LessIrreflexive(x);
      assert x == y;
      forall p
        ensures p in a[1..] <==> p in keys - {x}
      {
        if p in a[1..] {
          LessIrreflexive(p);
        }
      }
      forall p
        ensures p in b[1..] <==> p in keys - {x}
      {
        if p in b[1..] {
          LessIrreflexive(p);
        }
      }
      SortedListUnique(a[1..], b[1..], keys - {x});
      assert a == [x] + a[1..] && b == [x] + b[1..];
    }
  }

  /** The empty set sorts to the empty list. */
  lemma SortedListOfEmpty(s: seq<string>)
    requires SortedListOf(s, {})
    ensures s == []
  {
    SortedListLength(s, {});
  }

  predicate IsLeast(m: string, s: set<string>)
  {
    m in s && forall p :: p in s && p != m ==> Less(m, p)
  }

  /** Every non-empty finite set of strings has a least member. */
  lemma {:induction false} LeastExists(s: set<string>)
    requires s != {}
    ensures exists m :: IsLeast(m, s)
    decreases |s|
  {
    var x :| x in s;
    if s == {x} {
      assert IsLeast(x, s);
    } else {
      LeastExists(s - {x});
      var m :| IsLeast(m, s - {x});
      LessTotal(m, x);
      if Less(m, x) {
        assert IsLeast(m, s);
      } else {
        forall p | p in s && p != x
          ensures Less(x, p)
        {
          if p != m {
            LessTransitive(x, m, p);
          }
        }
        assert IsLeast(x, s);
      }
    }
  }

  /** `sorted(list(keys))`: repeatedly takes the least remaining path. */
  method SortPaths(keys: set<string>) returns (r: seq<string>)
    ensures SortedListOf(r, keys)
  {
    r := [];
    var rest := keys;
    while rest != {}
      invariant forall p :: p in keys <==> p in r || p in rest
      invariant forall p :: p in r ==> p !in rest
      invariant StrictlySorted(r)
      invariant forall i, p :: 0 <= i < |r| && p in rest ==> Less(r[i], p)
      decreases |rest|
    {
      LeastExists(rest);
      var m :| IsLeast(m, rest);
      r := r + [m];
      rest := rest - {m};
    }
  }
}
