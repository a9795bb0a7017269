/**
 The ordered key-value store both components sit on, reduced to the part of
 its contract they consume: a finite map from string keys to records, point
 reads and writes, atomic batches of puts and deletes, and a forward scan in
 key order from a start key.
 */
module Store {
  import opened Lex

  newtype byte = b: int | 0 <= b < 256

  /** A serialized value. JSON text is never empty, so a stored value is always truthy. */
  type Encoded = b: seq<byte> | |b| > 0 witness [0]

  datatype Option<+T> = None | Some(value: T)
  {
    function GetOr(default: T): T
    {
      match this
      case Some(v) => v
      case None => default
    }
  }

  /** One pending operation of a batch. */
  datatype Op<V> = Put(key: string, value: V) | Erase(key: string)

  function Step<V>(st: map<string, V>, op: Op<V>): map<string, V>
  {
    match op
    case Put(k, v) => st[k := v]
    case Erase(k) => st - {k}
  }

  /** A batch: its operations applied in order, all at once when the scope closes. */
  function Apply<V>(st: map<string, V>, ops: seq<Op<V>>): map<string, V>
    decreases |ops|
  {
    if |ops| == 0 then st else Apply(Step(st, ops[0]), ops[1..])
  }

  /** The keys a batch names, by put or by delete. */
  function OpKeys<V>(ops: seq<Op<V>>): set<string>
  {
    set i | 0 <= i < |ops| :: ops[i].key
  }

  /** A batch touches only the keys it names: every other key keeps its presence and its value. */
  lemma {:induction false} ApplyFrame<V>(st: map<string, V>, ops: seq<Op<V>>, k: string)
    requires k !in OpKeys(ops)
    ensures k in Apply(st, ops) <==> k in st
    ensures k in st ==> Apply(st, ops)[k] == st[k]
    decreases |ops|
  {
    if |ops| > 0 {
      assert ops[0].key in OpKeys(ops);
      ApplyFrame(Step(st, ops[0]), ops[1..], k);
    }
  }

  /** The keys a batch deletes. */
  function ErasedKeys<V>(ops: seq<Op<V>>): set<string>
  {
    set i | 0 <= i < |ops| && ops[i].Erase? :: ops[i].key
  }

  /** A batch of erasures removes exactly its keys, whether or not they were present. */
  lemma {:induction false} ApplyErasures<V>(st: map<string, V>, ops: seq<Op<V>>)
    requires forall i :: 0 <= i < |ops| ==> ops[i].Erase?
    ensures Apply(st, ops) == st - ErasedKeys(ops)
    decreases |ops|
  {
    if |ops| > 0 {
      ApplyErasures(Step(st, ops[0]), ops[1..]);
      var tail := ErasedKeys(ops[1..]);
      assert ErasedKeys(ops) == {ops[0].key} + tail by {
        forall k | k in ErasedKeys(ops)
          ensures k in {ops[0].key} + tail
        {
          var i :| 0 <= i < |ops| && ops[i].Erase? && ops[i].key == k;
          if i > 0 {
            assert ops[1..][i - 1] == ops[i];
          }
        }
        forall k | k in tail
          ensures k in ErasedKeys(ops)
        {
          var i :| 0 <= i < |ops[1..]| && ops[1..][i].Erase? && ops[1..][i].key == k;
          assert ops[i + 1] == ops[1..][i];
        }
      }
    }
  }

  /** The keys two batches delete together. */
  lemma ErasedKeysConcat<V>(a: seq<Op<V>>, b: seq<Op<V>>)
    ensures ErasedKeys(a + b) == ErasedKeys(a) + ErasedKeys(b)
  {
    forall k | k in ErasedKeys(a + b)
      ensures k in ErasedKeys(a) + ErasedKeys(b)
    {
      var i :| 0 <= i < |a + b| && (a + b)[i].Erase? && (a + b)[i].key == k;
      if i >= |a| {
        assert (a + b)[i] == b[i - |a|];
      }
    }
    forall k | k in ErasedKeys(b)
      ensures k in ErasedKeys(a + b)
    {
      var i :| 0 <= i < |b| && b[i].Erase? && b[i].key == k;
      assert (a + b)[i + |a|] == b[i];
    }
    forall k | k in ErasedKeys(a)
      ensures k in ErasedKeys(a + b)
    {
      var i :| 0 <= i < |a| && a[i].Erase? && a[i].key == k;
      assert (a + b)[i] == a[i];
    }
  }

  /** A batch of two operations. */
  lemma ApplyPair<V>(st: map<string, V>, a: Op<V>, b: Op<V>)
    ensures Apply(st, [a, b]) == Step(Step(st, a), b)
  {
    assert [a, b][1..] == [b];
    assert [b][1..] == [];
    calc {
      Apply(st, [a, b]);
      Apply(Step(st, a), [b]);
      Apply(Step(Step(st, a), b), []);
    }
  }

  /** Running two batches one after the other is running their concatenation. */
  lemma {:induction false} ApplyConcat<V>(st: map<string, V>, a: seq<Op<V>>, b: seq<Op<V>>)
    ensures Apply(st, a + b) == Apply(Apply(st, a), b)
    decreases |a|
  {
    if |a| > 0 {
      assert (a + b)[0] == a[0];
      assert (a + b)[1..] == a[1..] + b;
      ApplyConcat(Step(st, a[0]), a[1..], b);
    } else {
      assert a + b == b;
    }
  }

  /** What `scan(start_key)` yields: every key at or after `start`, in increasing order. */
  function Scan<V>(st: map<string, V>, start: string): (r: seq<string>)
    ensures StrictlySorted(r)
    ensures forall k :: k in r <==> k in st && Le(start, k)
  {
    SortedKeys(set k | k in st && Le(start, k))
  }

  /** Where a loop over `keys` that breaks on the first key without prefix `p` stops. */
  function StopIndex(keys: seq<string>, p: string): (i: nat)
    ensures i <= |keys|
    ensures forall j :: 0 <= j < i ==> StartsWith(keys[j], p)
    ensures i == |keys| || !StartsWith(keys[i], p)
    decreases |keys|
  {
    if |keys| == 0 || !StartsWith(keys[0], p) then 0
    else 1 + StopIndex(keys[1..], p)
  }

  /** A loop that has stopped at the first key without prefix `p` has stopped at `StopIndex`. */
  lemma StopIndexUnique(keys: seq<string>, p: string, i: nat)
    requires i <= |keys|
    requires forall j :: 0 <= j < i ==> StartsWith(keys[j], p)
    requires i == |keys| || !StartsWith(keys[i], p)
    ensures i == StopIndex(keys, p)
  {
  }

  /**
   The scan-until-mismatch loop is exact: stopping a scan from `p` at its first
   key without prefix `p` has visited precisely the keys that carry the prefix,
   because keys sharing a prefix are contiguous in lexicographic order.
   */
  lemma ScanStopsAtPrefixEnd<V>(st: map<string, V>, p: string, i: nat)
    requires i <= |Scan(st, p)|
    requires forall j :: 0 <= j < i ==> StartsWith(Scan(st, p)[j], p)
    requires i == |Scan(st, p)| || !StartsWith(Scan(st, p)[i], p)
    ensures forall k :: k in Scan(st, p)[..i] <==> k in st && StartsWith(k, p)
  {
    var keys := Scan(st, p);
    forall k | k in st && StartsWith(k, p)
      ensures k in keys[..i]
    {
      PrefixIsLe(p, k);
      var j :| 0 <= j < |keys| && keys[j] == k;
      if j >= i {
        assert keys[i] in keys;
        PastPrefixRange(p, keys[i], k);
        if j > i {
          LtAsymmetric(keys[i], keys[j]);
        }
      }
    }
    forall k | k in keys[..i]
      ensures k in st && StartsWith(k, p)
    {
      var j :| 0 <= j < i && keys[..i][j] == k;
      assert keys[j] == k;
    }
  }

  /**
   The keys a prefix scan visits: `scan(start_key=p)` consumed until the first
   key that lacks the prefix.
   */
  function PrefixScan<V>(st: map<string, V>, p: string): (r: seq<string>)
    ensures StrictlySorted(r)
    ensures forall k :: k in r <==> k in st && StartsWith(k, p)
  {
    var keys := Scan(st, p);
    var i := StopIndex(keys, p);
    ScanStopsAtPrefixEnd(st, p, i);
    keys[..i]
  }

  /** The keys of `st` that carry prefix `p`. */
  function KeysWithPrefix<V>(st: map<string, V>, p: string): set<string>
  {
    set k | k in st && StartsWith(k, p)
  }

  /** The first `n` elements of a strictly sorted sequence are `n` distinct keys. */
  lemma {:induction false} SortedPrefixCardinality(s: seq<string>, n: nat)
    requires StrictlySorted(s)
    requires n <= |s|
    ensures |Elems(s[..n])| == n
    decreases n
  {
    if n > 0 {
      SortedPrefixCardinality(s, n - 1);
      SortedFresh(s, n - 1);
      assert s[..n] == s[..n - 1] + [s[n - 1]];
      assert Elems(s[..n]) == Elems(s[..n - 1]) + {s[n - 1]};
    }
  }

  /** A strictly sorted sequence lists as many keys as it has elements. */
  lemma SortedCardinality(s: seq<string>)
    requires StrictlySorted(s)
    ensures |Elems(s)| == |s|
  {
    SortedPrefixCardinality(s, |s|);
    assert s[..|s|] == s;
  }

  /** A prefix scan visits as many keys as the store holds under that prefix. */
  lemma PrefixScanCount<V>(st: map<string, V>, p: string)
    ensures |PrefixScan(st, p)| == |KeysWithPrefix(st, p)|
  {
    var r := PrefixScan(st, p);
    SortedCardinality(r);
    assert Elems(r) == KeysWithPrefix(st, p);
  }

  /** The keys listed in `keys` that carry prefix `p`. */
  function PrefixedAmong(keys: seq<string>, p: string): set<string>
  {
    set k | k in keys && StartsWith(k, p)
  }

  /** One more key of a strictly sorted sequence adds one to the count exactly when it carries the prefix. */
  lemma PrefixedAmongSnoc(keys: seq<string>, p: string, i: nat)
    requires StrictlySorted(keys)
    requires i < |keys|
    ensures |PrefixedAmong(keys[..i + 1], p)| == |PrefixedAmong(keys[..i], p)| + (if StartsWith(keys[i], p) then 1 else 0)
  {
    assert keys[..i + 1] == keys[..i] + [keys[i]];
    SortedFresh(keys, i);
    if StartsWith(keys[i], p) {
      assert PrefixedAmong(keys[..i + 1], p) == PrefixedAmong(keys[..i], p) + {keys[i]};
    } else {
      assert PrefixedAmong(keys[..i + 1], p) == PrefixedAmong(keys[..i], p);
    }
  }

  /** Run to the end, a scan from `p` has passed every key with prefix `p`. */
  lemma ScanPassesPrefixed<V>(st: map<string, V>, p: string, i: nat)
    requires i == |Scan(st, p)|
    ensures PrefixedAmong(Scan(st, p)[..i], p) == KeysWithPrefix(st, p)
  {
    assert Scan(st, p)[..i] == Scan(st, p);
    forall k | k in st && StartsWith(k, p)
      ensures k in Scan(st, p)
    {
      PrefixIsLe(p, k);
    }
  }

  /**
   Counting without a break: a scan from `p` run to the end of the store,
   counting the keys that carry prefix `p`, counts exactly the keys under `p`.
   */
  method CountWithPrefix<V>(st: map<string, V>, p: string) returns (n: nat)
    ensures n == |KeysWithPrefix(st, p)|
  {
    var keys := Scan(st, p);
    n := 0;
    var i := 0;
    while i < |keys|
      invariant 0 <= i <= |keys|
      invariant n == |PrefixedAmong(keys[..i], p)|
    {
      PrefixedAmongSnoc(keys, p, i);
      if StartsWith(keys[i], p) {
        n := n + 1;
      }
      i := i + 1;
    }
    ScanPassesPrefixed(st, p, i);
  }
}
