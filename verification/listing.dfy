/**
  The newest-first order of `list_snapshots` (core/snapshot_manager.py):
  `versions.sort(key=timestamp or "", reverse=True)`. Python compares
  strings code point by code point, and a reverse sort is still stable:
  records with equal keys keep their original relative order.
 */
module Listing {
  import opened VersionDb

  /** Python's `a <= b` on strings: lexicographic by code point. */
  predicate StrLe(a: string, b: string)
    decreases |a|
  {
    if |a| == 0 then true
    else if |b| == 0 then false
    else if a[0] != b[0] then a[0] < b[0]
    else StrLe(a[1..], b[1..])
  }

  lemma {:induction false} StrLeTotal(a: string, b: string)
    ensures StrLe(a, b) || StrLe(b, a)
    decreases |a|
  {
    if |a| > 0 && |b| > 0 && a[0] == b[0] {
      StrLeTotal(a[1..], b[1..]);
    }
  }

  lemma {:induction false} StrLeAntisymmetric(a: string, b: string)
    requires StrLe(a, b) && StrLe(b, a)
    ensures a == b
    decreases |a|
  {
    if |a| > 0 {
      StrLeAntisymmetric(a[1..], b[1..]);
      assert a == [a[0]] + a[1..] && b == [b[0]] + b[1..];
    }
  }

  lemma {:induction false} StrLeTransitive(a: string, b: string, c: string)
    requires StrLe(a, b) && StrLe(b, c)
    ensures StrLe(a, c)
    decreases |a|
  {
    if |a| > 0 && a[0] == b[0] && b[0] == c[0] {
      StrLeTransitive(a[1..], b[1..], c[1..]);
    }
  }

  lemma {:induction false} StrLeReflexive(a: string)
    ensures StrLe(a, a)
    decreases |a|
  {
    if |a| > 0 {
      StrLeReflexive(a[1..]);
    }
  }

  /** The sort key: `v.get("timestamp", "")`. */
  function Key(v: Meta): string {
    v.timestamp.GetOr("")
  }

  /** Newest first: no later record has a greater key than an earlier one. */
  predicate Descending(vs: seq<Meta>) {
    forall i, j :: 0 <= i < j < |vs| ==> StrLe(Key(vs[j]), Key(vs[i]))
  }

  /** The records carrying key `k`, in order. */
  function WithKey(vs: seq<Meta>, k: string): (r: seq<Meta>)
    ensures |r| <= |vs|
  {
    if |vs| == 0 then []
    else if Key(vs[0]) == k then [vs[0]] + WithKey(vs[1..], k)
    else WithKey(vs[1..], k)
  }

  /**
    Place `x` before the first record whose key is not greater than its own,
    so that `x`, which came earlier, stays ahead of records with its key.
   */
  function InsertDesc(x: Meta, t: seq<Meta>): (r: seq<Meta>)
    ensures multiset(r) == multiset(t) + multiset{x}
  {
    if |t| == 0 then [x]
    else if StrLe(Key(t[0]), Key(x)) then [x] + t
    else
      assert t == [t[0]] + t[1..];
      [t[0]] + InsertDesc(x, t[1..])
  }

  /** The stable descending sort, as an insertion sort from the back. */
  function SortDesc(vs: seq<Meta>): (r: seq<Meta>)
    ensures multiset(r) == multiset(vs)
  {
    if |vs| == 0 then []
    else
      assert vs == [vs[0]] + vs[1..];
      InsertDesc(vs[0], SortDesc(vs[1..]))
  }

  /** A record no smaller than every record of a sorted list can go in front of it. */
  lemma ConsSorted(h: Meta, rest: seq<Meta>)
    requires Descending(rest)
    requires forall k :: 0 <= k < |rest| ==> StrLe(Key(rest[k]), Key(h))
    ensures Descending([h] + rest)
  {
    var r := [h] + rest;
    forall i, j | 0 <= i < j < |r| ensures StrLe(Key(r[j]), Key(r[i])) {
      if i == 0 {
        assert r[j] == rest[j - 1];
      } else {
        assert r[i] == rest[i - 1] && r[j] == rest[j - 1];
      }
    }
  }

  /** Inserting a record below `y` into a list below `y` gives a list below `y`. */
  lemma InsertDescBelow(x: Meta, t: seq<Meta>, y: Meta)
    requires StrLe(Key(x), Key(y))
    requires forall k :: 0 <= k < |t| ==> StrLe(Key(t[k]), Key(y))
    ensures forall k :: 0 <= k < |InsertDesc(x, t)| ==> StrLe(Key(InsertDesc(x, t)[k]), Key(y))
  {
    var r := InsertDesc(x, t);
    forall k | 0 <= k < |r| ensures StrLe(Key(r[k]), Key(y)) {
      assert r[k] in multiset(r);
      if r[k] != x {
        assert r[k] in multiset(t);
        var m :| 0 <= m < |t| && t[m] == r[k];
      }
    }
  }

  lemma {:induction false} InsertDescSorted(x: Meta, t: seq<Meta>)
    requires Descending(t)
    ensures Descending(InsertDesc(x, t))
  {
    if |t| == 0 {
    } else if StrLe(Key(t[0]), Key(x)) {
      forall k | 0 <= k < |t| ensures StrLe(Key(t[k]), Key(x)) {
        if k > 0 {
          StrLeTransitive(Key(t[k]), Key(t[0]), Key(x));
        }
      }
      ConsSorted(x, t);
    } else {
      StrLeTotal(Key(t[0]), Key(x));
      assert Descending(t[1..]);
      InsertDescSorted(x, t[1..]);
      assert forall k :: 0 <= k < |t[1..]| ==> StrLe(Key(t[1..][k]), Key(t[0]));
      InsertDescBelow(x, t[1..], t[0]);
      ConsSorted(t[0], InsertDesc(x, t[1..]));
    }
  }

  lemma {:induction false} SortDescSorted(vs: seq<Meta>)
    ensures Descending(SortDesc(vs))
  {
    if |vs| > 0 {
      SortDescSorted(vs[1..]);
      InsertDescSorted(vs[0], SortDesc(vs[1..]));
    }
  }

  /**
    Inserting `x` only ever passes records with a strictly greater key, so
    among the records of any one key, `x` lands first.
   */
  lemma {:induction false} InsertDescWithKey(x: Meta, t: seq<Meta>, k: string)
    ensures WithKey(InsertDesc(x, t), k)
            == (if Key(x) == k then [x] else []) + WithKey(t, k)
  {
    if |t| == 0 {
      assert WithKey([x], k) == (if Key(x) == k then [x] else []) + WithKey([x][1..], k);
    } else if StrLe(Key(t[0]), Key(x)) {
      assert ([x] + t)[1..] == t;
    } else {
      StrLeReflexive(Key(x));
      assert Key(t[0]) != Key(x);
      InsertDescWithKey(x, t[1..], k);
      var rest := InsertDesc(x, t[1..]);
      assert ([t[0]] + rest)[1..] == rest;
      if Key(t[0]) == k {
        assert Key(x) != k;
      }
    }
  }

  /** Stability: for every key, the records with that key keep their relative order. */
  lemma {:induction false} SortDescStable(vs: seq<Meta>, k: string)
    ensures WithKey(SortDesc(vs), k) == WithKey(vs, k)
  {
    if |vs| > 0 {
      SortDescStable(vs[1..], k);
      InsertDescWithKey(vs[0], SortDesc(vs[1..]), k);
    }
  }

  /** Comparison skips a common prefix and is decided at the first difference. */
  lemma {:induction false} StrLePrefix(a: string, b: string, n: nat)
    requires n < |a| && n < |b| && a[..n] == b[..n] && a[n] != b[n]
    ensures StrLe(a, b) <==> a[n] < b[n]
    decreases n
  {
    if n > 0 {
      assert a[0] == a[..n][0] == b[..n][0] == b[0];
      assert a[1..][..n - 1] == a[1..n] == a[..n][1..];
      assert b[1..][..n - 1] == b[1..n] == b[..n][1..];
      StrLePrefix(a[1..], b[1..], n - 1);
    }
  }
}
