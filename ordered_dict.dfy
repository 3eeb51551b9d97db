/**
 * A Python `dict` with string keys, as a sequence of (key, value) entries in
 * insertion order. Lookup, assignment and `{k: d[k] for k in sorted(d.keys())}`.
 */
module OrderedDict {
  import opened Wrappers
  import opened StringOrder

  function KeySet<V(==)>(d: seq<(string, V)>): set<string> {
    set p | p in d :: p.0
  }

  predicate UniqueKeys<V(==)>(d: seq<(string, V)>) {
    forall i, j | 0 <= i < j < |d| :: d[i].0 != d[j].0
  }

  /** A decoded JSON object whose values are recognised texts. */
  type TextDict = d: seq<(string, string)> | UniqueKeys(d)

  /** Keys in strictly increasing Python string order. */
  predicate StrictlyAscending<V(==)>(d: seq<(string, V)>) {
    forall i, j | 0 <= i < j < |d| :: Below(d[i].0, d[j].0)
  }

  /** `d.get(k)`. */
  function Get<V(==)>(d: seq<(string, V)>, k: string): (r: Option<V>)
    ensures r.None? <==> k !in KeySet(d)
    ensures r.Some? ==> (k, r.value) in d
  {
    if d == [] then None
    else if d[0].0 == k then Some(d[0].1)
    else
      assert KeySet(d) == {d[0].0} + KeySet(d[1..]) by {
        assert d == [d[0]] + d[1..];
      }
      Get(d[1..], k)
  }

  /** `d[k] = v`: an existing key keeps its position, a new key goes last. */
  function Put<V(==)>(d: seq<(string, V)>, k: string, v: V): (r: seq<(string, V)>)
    ensures Get(r, k) == Some(v)
    ensures forall k' | k' != k :: Get(r, k') == Get(d, k')
    ensures k !in KeySet(d) ==> r == d + [(k, v)]
  {
    if d == [] then [(k, v)]
    else if d[0].0 == k then [(k, v)] + d[1..]
    else
      assert KeySet(d) == {d[0].0} + KeySet(d[1..]) by {
        assert d == [d[0]] + d[1..];
      }
      [d[0]] + Put(d[1..], k, v)
  }

  /** Assignment adds exactly `k` to the key set. */
  lemma PutKeySet<V>(d: seq<(string, V)>, k: string, v: V)
    ensures KeySet(Put(d, k, v)) == KeySet(d) + {k}
  {
    var r := Put(d, k, v);
    forall x ensures x in KeySet(r) <==> x in KeySet(d) + {k} {
      assert Get(r, x).None? <==> x !in KeySet(r);
    }
  }

  /** Assignment keeps the keys of a dict unique. */
  lemma {:induction false} PutUnique<V>(d: seq<(string, V)>, k: string, v: V)
    requires UniqueKeys(d)
    ensures UniqueKeys(Put(d, k, v))
  {
    if d != [] {
      HeadNotInTail(d);
      TailUnique(d);
      if d[0].0 == k {
        ConsUnique((k, v), d[1..]);
      } else {
        PutUnique(d[1..], k, v);
        PutKeySet(d[1..], k, v);
        ConsUnique(d[0], Put(d[1..], k, v));
      }
    }
  }

  lemma TailUnique<V>(d: seq<(string, V)>)
    requires d != [] && UniqueKeys(d)
    ensures UniqueKeys(d[1..])
  {
    forall i, j | 0 <= i < j < |d| - 1 ensures d[1..][i].0 != d[1..][j].0 {
      assert d[1..][i] == d[i + 1] && d[1..][j] == d[j + 1];
    }
  }

  lemma HeadNotInTail<V>(d: seq<(string, V)>)
    requires d != [] && UniqueKeys(d)
    ensures d[0].0 !in KeySet(d[1..])
  {
    forall q | q in d[1..] ensures q.0 != d[0].0 {
      var m :| 0 <= m < |d[1..]| && d[1..][m] == q;
      assert d[m + 1] == q;
    }
  }

  lemma ConsUnique<V>(p: (string, V), t: seq<(string, V)>)
    requires UniqueKeys(t) && p.0 !in KeySet(t)
    ensures UniqueKeys([p] + t)
  {
    var r := [p] + t;
    forall i, j | 0 <= i < j < |r| ensures r[i].0 != r[j].0 {
      assert r[j] == t[j - 1];
      if i == 0 {
        assert t[j - 1] in t;
      } else {
        assert r[i] == t[i - 1];
      }
    }
  }

  /** With unique keys, the value stored with `k` is the one lookup finds. */
  lemma {:induction false} GetUnique<V>(d: seq<(string, V)>, k: string, v: V)
    requires UniqueKeys(d) && (k, v) in d
    ensures Get(d, k) == Some(v)
  {
    var i :| 0 <= i < |d| && d[i] == (k, v);
    if d[0].0 != k {
      assert d[1..][i - 1] == (k, v);
      GetUnique(d[1..], k, v);
    }
  }

  lemma MultisetKeySet<V>(a: seq<(string, V)>, b: seq<(string, V)>)
    requires multiset(a) == multiset(b)
    ensures KeySet(a) == KeySet(b)
  {
    forall k | k in KeySet(a) ensures k in KeySet(b) {
      var p :| p in a && p.0 == k;
      assert p in multiset(b);
    }
    forall k | k in KeySet(b) ensures k in KeySet(a) {
      var p :| p in b && p.0 == k;
      assert p in multiset(a);
    }
  }

  function Insert<V(==)>(p: (string, V), d: seq<(string, V)>): (r: seq<(string, V)>)
    ensures multiset(r) == multiset(d) + multiset{p}
  {
    if d == [] then [p]
    else if Below(p.0, d[0].0) then [p] + d
    else
      assert d == [d[0]] + d[1..];
      [d[0]] + Insert(p, d[1..])
  }

  /** `{key: d[key] for key in sorted(d.keys())}`. */
  function SortByKey<V(==)>(d: seq<(string, V)>): (r: seq<(string, V)>)
    ensures multiset(r) == multiset(d)
  {
    if d == [] then []
    else
      assert d == [d[0]] + d[1..];
      Insert(d[0], SortByKey(d[1..]))
  }

  lemma {:induction false} InsertAscending<V>(p: (string, V), d: seq<(string, V)>)
    requires StrictlyAscending(d) && p.0 !in KeySet(d)
    ensures StrictlyAscending(Insert(p, d))
  {
    if d == [] {
    } else if Below(p.0, d[0].0) {
      var r := [p] + d;
      forall i, j | 0 <= i < j < |r| ensures Below(r[i].0, r[j].0) {
        if i == 0 && j > 1 {
          BelowTransitive(p.0, d[0].0, d[j - 1].0);
        }
      }
    } else {
      assert d[0] in d;
      BelowTotal(p.0, d[0].0);
      var rest := d[1..];
      assert KeySet(rest) <= KeySet(d) by {
        forall q | q in rest ensures q in d { }
      }
      InsertAscending(p, rest);
      var t := Insert(p, rest);
      var r := [d[0]] + t;
      forall i, j | 0 <= i < j < |r| ensures Below(r[i].0, r[j].0) {
        if i == 0 {
          var x := t[j - 1];
          assert x in multiset(t);
          if x != p {
            assert x in rest;
            var m :| 0 <= m < |rest| && rest[m] == x;
            assert d[m + 1] == x;
          }
        }
      }
    }
  }

  /** Sorting a dict with unique keys orders its keys strictly. */
  lemma {:induction false} SortByKeyAscending<V>(d: seq<(string, V)>)
    requires UniqueKeys(d)
    ensures StrictlyAscending(SortByKey(d))
  {
    if d != [] {
      var rest := d[1..];
      SortByKeyAscending(rest);
      MultisetKeySet(SortByKey(rest), rest);
      assert d[0].0 !in KeySet(rest) by {
        forall q | q in rest ensures q.0 != d[0].0 {
          var m :| 0 <= m < |rest| && rest[m] == q;
          assert d[m + 1] == q;
        }
      }
      InsertAscending(d[0], SortByKey(rest));
    }
  }

  lemma AscendingUnique<V>(d: seq<(string, V)>)
    requires StrictlyAscending(d)
    ensures UniqueKeys(d)
  {
    forall i, j | 0 <= i < j < |d| ensures d[i].0 != d[j].0 {
      if d[i].0 == d[j].0 {
        BelowIrreflexive(d[i].0);
      }
    }
  }

  /**
   * Sorting only reorders: the sorted dict is strictly ascending, has exactly
   * the same keys, and maps each key to the same value.
   */
  lemma SortByKeyFaithful<V>(d: seq<(string, V)>)
    requires UniqueKeys(d)
    ensures StrictlyAscending(SortByKey(d))
    ensures KeySet(SortByKey(d)) == KeySet(d)
    ensures |SortByKey(d)| == |d|
    ensures forall k :: Get(SortByKey(d), k) == Get(d, k)
  {
    var r := SortByKey(d);
    SortByKeyAscending(d);
    AscendingUnique(r);
    MultisetKeySet(r, d);
    assert |r| == |multiset(r)| == |multiset(d)| == |d|;
    forall k ensures Get(r, k) == Get(d, k) {
      if k in KeySet(d) {
        var v := Get(d, k).value;
        assert (k, v) in multiset(r);
        GetUnique(r, k, v);
      }
    }
  }
}
