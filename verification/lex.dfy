/**
 Keys of the ordered store are strings compared lexicographically, character
 by character (code point order, which is also the byte order of their UTF-8
 encoding). This module defines that order, the prefix relation the scans
 stop on, and the sorted enumeration of a finite set of keys.
 */
module Lex {

  /** `s` begins with `p` (Python's `str.startswith`). */
  predicate StartsWith(s: string, p: string)
  {
    |p| <= |s| && s[..|p|] == p
  }

  /** Lexicographic "less than or equal". */
  predicate Le(a: string, b: string)
    decreases |a|
  {
    |a| == 0 || (|b| > 0 && (a[0] < b[0] || (a[0] == b[0] && Le(a[1..], b[1..]))))
  }

  /** Lexicographic "strictly less than". */
  predicate Lt(a: string, b: string)
  {
    Le(a, b) && a != b
  }

  /** Every element strictly below every later one (hence no duplicates). */
  predicate StrictlySorted(s: seq<string>)
  {
    forall i, j :: 0 <= i < j < |s| ==> Lt(s[i], s[j])
  }

  lemma {:induction false} LeReflexive(a: string)
    ensures Le(a, a)
    decreases |a|
  {
    if |a| > 0 {
      LeReflexive(a[1..]);
    }
  }

  lemma {:induction false} LeAntisymmetric(a: string, b: string)
    requires Le(a, b) && Le(b, a)
    ensures a == b
    decreases |a|
  {
    if |a| > 0 {
      LeAntisymmetric(a[1..], b[1..]);
      assert a == [a[0]] + a[1..];
      assert b == [b[0]] + b[1..];
    }
  }

  lemma LeAntisymmetricAll()
    ensures forall a, b :: Le(a, b) && Le(b, a) ==> a == b
  {
    forall a, b | Le(a, b) && Le(b, a)
      ensures a == b
    {
      LeAntisymmetric(a, b);
    }
  }

  lemma {:induction false} LeTransitive(a: string, b: string, c: string)
    requires Le(a, b) && Le(b, c)
    ensures Le(a, c)
    decreases |a|
  {
    if |a| > 0 && a[0] == b[0] && b[0] == c[0] {
      LeTransitive(a[1..], b[1..], c[1..]);
    }
  }

  lemma {:induction false} LeTotal(a: string, b: string)
    ensures Le(a, b) || Le(b, a)
    decreases |a|
  {
    if |a| > 0 && |b| > 0 && a[0] == b[0] {
      LeTotal(a[1..], b[1..]);
    }
  }

  /** Lt is asymmetric: no two keys are each below the other. */
  lemma LtAsymmetric(a: string, b: string)
    requires Lt(a, b)
    ensures !Lt(b, a)
  {
    if Lt(b, a) {
      LeAntisymmetric(a, b);
    }
  }

  lemma LtTransitive(a: string, b: string, c: string)
    requires Lt(a, b) && Lt(b, c)
    ensures Lt(a, c)
  {
    LeTransitive(a, b, c);
    if a == c {
      LeAntisymmetric(a, b);
    }
  }

  /** Stepping one character into two strings that start with the same one. */
  lemma StartsWithTail(s: string, p: string)
    requires |p| > 0 && |s| > 0 && s[0] == p[0]
    ensures StartsWith(s, p) <==> StartsWith(s[1..], p[1..])
  {
    if |p| <= |s| {
      assert s[..|p|] == [s[0]] + s[1..][..|p| - 1];
      assert p == [p[0]] + p[1..];
    }
  }

  /** A string is never below its own prefix: `p` sorts at or before every extension of `p`. */
  lemma {:induction false} PrefixIsLe(p: string, s: string)
    requires StartsWith(s, p)
    ensures Le(p, s)
    decreases |p|
  {
    if |p| > 0 {
      assert s[0] == s[..|p|][0];
      StartsWithTail(s, p);
      PrefixIsLe(p[1..], s[1..]);
    }
  }

  /**
   The contiguity fact behind every prefix scan: a key `x` at or after `p` that
   does not start with `p` lies strictly after every key that does.
   */
  lemma {:induction false} PastPrefixRange(p: string, x: string, y: string)
    requires Le(p, x) && !StartsWith(x, p) && StartsWith(y, p)
    ensures Lt(y, x)
    decreases |p|
  {
    assert |p| > 0;
    assert y[0] == y[..|p|][0];
    if p[0] < x[0] {
      assert Le(y, x);
    } else {
      StartsWithTail(x, p);
      StartsWithTail(y, p);
      PastPrefixRange(p[1..], x[1..], y[1..]);
      assert Le(y, x);
    }
  }

  /** A common prefix does not change the order of two keys. */
  lemma {:induction false} LtUnderPrefix(p: string, a: string, b: string)
    requires Lt(p + a, p + b)
    ensures Lt(a, b)
    decreases |p|
  {
    if |p| == 0 {
      assert p + a == a && p + b == b;
    } else {
      assert (p + a)[1..] == p[1..] + a;
      assert (p + b)[1..] == p[1..] + b;
      LtUnderPrefix(p[1..], a, b);
    }
  }

  /** In a strictly sorted sequence no element repeats an earlier one. */
  lemma SortedFresh(s: seq<string>, i: nat)
    requires StrictlySorted(s)
    requires i < |s|
    ensures s[i] !in s[..i]
  {
    forall j | 0 <= j < i
      ensures s[..i][j] != s[i]
    {
      assert Lt(s[j], s[i]);
    }
  }

  /** The keys a sequence lists. */
  function Elems(s: seq<string>): set<string>
  {
    set k | k in s
  }

  /** `m` sorts at or before every key of `ks`. */
  predicate IsLeast(m: string, ks: set<string>)
  {
    forall k :: k in ks ==> Le(m, k)
  }

  lemma {:induction false} MinimumExists(ks: set<string>)
    requires ks != {}
    ensures exists m :: m in ks && IsLeast(m, ks)
    decreases |ks|
  {
    var x :| x in ks;
    var rest := ks - {x};
    if rest == {} {
      LeReflexive(x);
      assert ks == {x};
      assert IsLeast(x, ks);
    } else {
      MinimumExists(rest);
      var m :| m in rest && IsLeast(m, rest);
      LeTotal(x, m);
      if Le(x, m) {
        forall k | k in ks
          ensures Le(x, k)
        {
          if k == x {
            LeReflexive(x);
          } else {
            LeTransitive(x, m, k);
          }
        }
        assert IsLeast(x, ks);
      } else {
        forall k | k in ks
          ensures Le(m, k)
        {
        }
        assert IsLeast(m, ks);
      }
    }
  }

  /** The least key of a non-empty set; unique because `Le` is antisymmetric. */
  function Min(ks: set<string>): (m: string)
    requires ks != {}
    ensures m in ks
    ensures forall k :: k in ks ==> Le(m, k)
  {
    MinimumExists(ks);
    LeAntisymmetricAll();
    var m :| m in ks && forall k :: k in ks ==> Le(m, k); m
  }

  /** The keys of `ks` in increasing order: what an ordered store enumerates. */
  function SortedKeys(ks: set<string>): (r: seq<string>)
    ensures StrictlySorted(r)
    ensures |r| == |ks|
    ensures forall k :: k in r <==> k in ks
    decreases |ks|
  {
    if ks == {} then []
    else
      var m := Min(ks);
      var rest := SortedKeys(ks - {m});
      SortedCons(m, ks, rest);
      [m] + rest
  }

  /** A key below every key of a strictly sorted sequence can be put in front of it. */
  lemma SortedPrepend(m: string, rest: seq<string>)
    requires StrictlySorted(rest)
    requires forall k :: k in rest ==> Lt(m, k)
    ensures StrictlySorted([m] + rest)
  {
    var r := [m] + rest;
    forall i, j | 0 <= i < j < |r|
      ensures Lt(r[i], r[j])
    {
      assert r[j] == rest[j - 1];
      if i > 0 { assert r[i] == rest[i - 1]; } else { assert rest[j - 1] in rest; }
    }
  }

  /** The least key of a set, put before the others in increasing order, keeps the order strict. */
  lemma SortedCons(m: string, ks: set<string>, rest: seq<string>)
    requires m in ks && IsLeast(m, ks)
    requires StrictlySorted(rest)
    requires forall k :: k in rest <==> k in ks - {m}
    ensures StrictlySorted([m] + rest)
  {
    var r := [m] + rest;
    forall i, j | 0 <= i < j < |r|
      ensures Lt(r[i], r[j])
    {
      assert r[j] == rest[j - 1];
      if i > 0 {
        assert r[i] == rest[i - 1];
      } else {
        assert rest[j - 1] in rest;
      }
    }
  }
}
