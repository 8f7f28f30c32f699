/**
 * Python's insertion-ordered `dict` with string keys, as barcodes.py uses it:
 * `dict.fromkeys` (barcodes.py:45), item assignment `d[k] = v`
 * (barcodes.py:50, 56), lookup `d[k]` (barcodes.py:50) and
 * `sum(d.values())` (barcodes.py:54). Column assignment on the results table
 * (barcodes.py:88) follows the same rule, so the table is one of these too.
 *
 * A dictionary is a list of keys in insertion order and the list of their
 * values at the same positions. Assigning to a key that is present replaces
 * its value in place; assigning to a new key appends the pair at the end.
 */
module OrderedDict {

  /** Keys are strings: barcodes and sample column names. */
  type Key = string

  datatype Dict<V> = Dict(keys: seq<Key>, vals: seq<V>)

  /** Every key has its value at the same position. */
  predicate Valid<V>(d: Dict<V>) {
    |d.keys| == |d.vals|
  }

  /** No key occurs twice in `s`. */
  predicate Distinct(s: seq<Key>) {
    forall i, j :: 0 <= i < j < |s| ==> s[i] != s[j]
  }

  /** `{}` */
  function Empty<V>(): (r: Dict<V>)
    ensures Valid(r) && r.keys == [] && Distinct(r.keys)
  {
    Dict([], [])
  }

  /** The position of the first occurrence of `x` in `s`, or `|s|` when `x` does not occur. */
  function IndexOf(s: seq<Key>, x: Key): (r: nat)
    ensures r <= |s|
    ensures r < |s| <==> x in s
    ensures r < |s| ==> s[r] == x
  {
    if s == [] then 0
    else if x in s[..|s| - 1] then IndexOf(s[..|s| - 1], x)
    else if s[|s| - 1] == x then |s| - 1
    else |s|
  }

  /** Appending a key does not move the keys already present. */
  lemma IndexOfAppend(s: seq<Key>, y: Key)
    ensures forall x :: x in s ==> IndexOf(s + [y], x) == IndexOf(s, x)
    ensures y !in s ==> IndexOf(s + [y], y) == |s|
  {
    assert (s + [y])[..|s|] == s;
  }

  /** `d[k]` */
  function Get<V>(d: Dict<V>, k: Key): (r: V)
    requires Valid(d) && k in d.keys
    ensures r in d.vals
  {
    d.vals[IndexOf(d.keys, k)]
  }

  /**
   * `d[k] = v`: a present key keeps its position, a new key is appended.
   * `PutSame` and `PutOther` state what lookups return afterwards.
   */
  function Put<V>(d: Dict<V>, k: Key, v: V): (r: Dict<V>)
    requires Valid(d)
    ensures Valid(r)
    ensures r.keys == if k in d.keys then d.keys else d.keys + [k]
  {
    if k in d.keys then Dict(d.keys, d.vals[IndexOf(d.keys, k) := v])
    else Dict(d.keys + [k], d.vals + [v])
  }

  /** After `d[k] = v`, `d[k]` is `v`. */
  lemma PutSame<V>(d: Dict<V>, k: Key, v: V)
    requires Valid(d)
    ensures k in Put(d, k, v).keys && Get(Put(d, k, v), k) == v
  {
    IndexOfAppend(d.keys, k);
  }

  /** `d[k] = v` leaves every other key present and its value unchanged. */
  lemma PutOther<V>(d: Dict<V>, k: Key, v: V, k': Key)
    requires Valid(d) && k' in d.keys && k' != k
    ensures k' in Put(d, k, v).keys && Get(Put(d, k, v), k') == Get(d, k')
  {
    IndexOfAppend(d.keys, k);
  }

  /** Assignment never introduces a repeated key. */
  lemma PutDistinct<V>(d: Dict<V>, k: Key, v: V)
    requires Valid(d) && Distinct(d.keys)
    ensures Distinct(Put(d, k, v).keys)
  {
  }

  /** `dict.fromkeys(ks, v)`: one entry per distinct key of `ks`, each holding `v`. */
  function FromKeys<V>(ks: seq<Key>, v: V): (r: Dict<V>)
    ensures Valid(r) && Distinct(r.keys)
    ensures forall k :: k in r.keys <==> k in ks
    ensures forall i :: 0 <= i < |r.vals| ==> r.vals[i] == v
  {
    if ks == [] then Empty()
    else
      var init, last := ks[..|ks| - 1], ks[|ks| - 1];
      var prefix := FromKeys(init, v);
      PutDistinct(prefix, last, v);
      assert forall k :: k in ks <==> k in init || k == last;
      Put(prefix, last, v)
  }

  /** `keys` lists keys in the order of their first occurrence in `ks`. */
  ghost predicate FirstOccurrenceOrder(keys: seq<Key>, ks: seq<Key>) {
    forall i, j :: 0 <= i < j < |keys| ==> IndexOf(ks, keys[i]) < IndexOf(ks, keys[j])
  }

  /**
   * Extending `ks` by one key keeps the first-occurrence order of the keys seen
   * so far, and a key seen for the first time comes after all of them.
   */
  lemma FirstOccurrenceStep(ks: seq<Key>, keys: seq<Key>)
    requires ks != []
    requires forall k :: k in keys <==> k in ks[..|ks| - 1]
    requires FirstOccurrenceOrder(keys, ks[..|ks| - 1])
    ensures FirstOccurrenceOrder(keys, ks)
    ensures ks[|ks| - 1] !in keys ==> FirstOccurrenceOrder(keys + [ks[|ks| - 1]], ks)
  {
    var init, last := ks[..|ks| - 1], ks[|ks| - 1];
    forall k | k in init ensures IndexOf(ks, k) == IndexOf(init, k) < |ks| - 1 {
    }
    if last !in keys {
      var ext := keys + [last];
      assert IndexOf(ks, last) == |ks| - 1;
      forall i, j | 0 <= i < j < |ext| ensures IndexOf(ks, ext[i]) < IndexOf(ks, ext[j]) {
        assert ext[i] == keys[i] && keys[i] in keys;
        if j < |keys| {
          assert ext[j] == keys[j];
        }
      }
    }
  }

  /**
   * `dict.fromkeys` keeps a repeated key at its first occurrence, so its keys
   * come in first-occurrence order.
   */
  lemma {:induction false} FromKeysOrder<V>(ks: seq<Key>, v: V)
    ensures FirstOccurrenceOrder(FromKeys(ks, v).keys, ks)
  {
    if ks != [] {
      FromKeysOrder(ks[..|ks| - 1], v);
      FirstOccurrenceStep(ks, FromKeys(ks[..|ks| - 1], v).keys);
    }
  }

  /** Without repeated keys, `dict.fromkeys` keeps every key, in the given order. */
  lemma {:induction false} FromKeysDistinct<V>(ks: seq<Key>, v: V)
    requires Distinct(ks)
    ensures FromKeys(ks, v).keys == ks
  {
    if ks != [] {
      var init, last := ks[..|ks| - 1], ks[|ks| - 1];
      DistinctSplit(ks);
      FromKeysDistinct(init, v);
      FromKeysAppendNew(init, last, v);
      assert init + [last] == ks;
    }
  }

  /** Dropping the last key of a repeat-free list leaves it repeat-free, and the last key is not among the others. */
  lemma DistinctSplit(ks: seq<Key>)
    requires ks != [] && Distinct(ks)
    ensures Distinct(ks[..|ks| - 1]) && ks[|ks| - 1] !in ks[..|ks| - 1]
  {
  }

  /** A key not seen before is appended to the end of `dict.fromkeys`. */
  lemma FromKeysAppendNew<V>(init: seq<Key>, last: Key, v: V)
    requires last !in init
    ensures FromKeys(init + [last], v).keys == FromKeys(init, v).keys + [last]
  {
    assert (init + [last])[..|init|] == init;
  }

  /** Assigning `vs[i]` to `ks[i]` in `d`, for each `i` in turn. */
  function PutAll<V>(d: Dict<V>, ks: seq<Key>, vs: seq<V>): (r: Dict<V>)
    requires Valid(d) && |ks| == |vs|
    ensures Valid(r)
  {
    if ks == [] then d
    else Put(PutAll(d, ks[..|ks| - 1], vs[..|vs| - 1]), ks[|ks| - 1], vs[|vs| - 1])
  }

  /** One more assignment extends `PutAll` by one step. */
  lemma PutAllStep<V>(d: Dict<V>, ks: seq<Key>, vs: seq<V>, n: nat)
    requires Valid(d) && |ks| == |vs| && n < |ks|
    ensures PutAll(d, ks[..n + 1], vs[..n + 1]) == Put(PutAll(d, ks[..n], vs[..n]), ks[n], vs[n])
  {
    assert ks[..n + 1][..n] == ks[..n] && vs[..n + 1][..n] == vs[..n];
  }

  /**
   * Assigning a list of keys into an empty dictionary yields one entry per
   * distinct key, in first-occurrence order, the same keys as `dict.fromkeys`.
   */
  lemma {:induction false} PutAllKeys<V>(ks: seq<Key>, vs: seq<V>)
    requires |ks| == |vs|
    ensures PutAll(Empty(), ks, vs).keys == FromKeys(ks, 0).keys
  {
    if ks != [] {
      PutAllKeys(ks[..|ks| - 1], vs[..|vs| - 1]);
    }
  }

  /** When assignments repeat a key, the last one wins. */
  lemma {:induction false} PutAllLastWins<V>(d: Dict<V>, ks: seq<Key>, vs: seq<V>, i: nat)
    requires Valid(d) && |ks| == |vs| && i < |ks|
    requires forall j :: i < j < |ks| ==> ks[j] != ks[i]
    ensures ks[i] in PutAll(d, ks, vs).keys
    ensures Get(PutAll(d, ks, vs), ks[i]) == vs[i]
  {
    var n := |ks| - 1;
    var prev := PutAll(d, ks[..n], vs[..n]);
    assert PutAll(d, ks, vs) == Put(prev, ks[n], vs[n]);
    if i < n {
      assert ks[i] in prev.keys && Get(prev, ks[i]) == vs[i] by {
        assert ks[..n][i] == ks[i] && vs[..n][i] == vs[i];
        PutAllLastWins(d, ks[..n], vs[..n], i);
      }
      PutOther(prev, ks[n], vs[n], ks[i]);
      calc {
        Get(PutAll(d, ks, vs), ks[i]);
        Get(Put(prev, ks[n], vs[n]), ks[i]);
        Get(prev, ks[i]);
      }
    } else {
      PutSame(prev, ks[n], vs[n]);
    }
  }

  /** Every value of `PutAll(Empty(), ks, vs)` is the value assigned to its key at some step. */
  lemma {:induction false} PutAllValues<V>(ks: seq<Key>, vs: seq<V>, k: Key)
    requires |ks| == |vs| && k in PutAll(Empty(), ks, vs).keys
    ensures exists i :: 0 <= i < |ks| && ks[i] == k && Get(PutAll(Empty(), ks, vs), k) == vs[i]
  {
    var n := |ks| - 1;
    var prev := PutAll(Empty(), ks[..n], vs[..n]);
    if k == ks[n] {
      PutSame(prev, ks[n], vs[n]);
    } else {
      PutOther(prev, ks[n], vs[n], k);
      PutAllValues(ks[..n], vs[..n], k);
      var i :| 0 <= i < n && ks[..n][i] == k && Get(prev, k) == vs[..n][i];
      assert ks[i] == k && Get(PutAll(Empty(), ks, vs), k) == vs[i];
    }
  }

  /** The sum of a list of integers. */
  function Sum(s: seq<int>): int {
    if s == [] then 0 else Sum(s[..|s| - 1]) + s[|s| - 1]
  }

  /** `sum(d.values())` */
  function SumValues(d: Dict<int>): int {
    Sum(d.vals)
  }

  /** Replacing one element shifts the sum by the difference. */
  lemma {:induction false} SumUpdate(s: seq<int>, i: nat, v: int)
    requires i < |s|
    ensures Sum(s[i := v]) == Sum(s) - s[i] + v
  {
    var n := |s| - 1;
    if i < n {
      assert s[i := v][..n] == s[..n][i := v];
      SumUpdate(s[..n], i, v);
    } else {
      assert s[i := v][..n] == s[..n];
    }
  }

  /** A list of zeros sums to zero. */
  lemma {:induction false} SumZero(s: seq<int>)
    requires forall i :: 0 <= i < |s| ==> s[i] == 0
    ensures Sum(s) == 0
  {
    if s != [] {
      SumZero(s[..|s| - 1]);
    }
  }

  /** Adding `delta` to the value of a present key adds `delta` to `sum(d.values())`. */
  lemma SumValuesPut(d: Dict<int>, k: Key, delta: int)
    requires Valid(d) && k in d.keys
    ensures SumValues(Put(d, k, Get(d, k) + delta)) == SumValues(d) + delta
  {
    SumUpdate(d.vals, IndexOf(d.keys, k), Get(d, k) + delta);
  }

  /** A fresh `dict.fromkeys(ks, 0)` sums to zero. */
  lemma SumValuesFromKeysZero(ks: seq<Key>)
    ensures SumValues(FromKeys(ks, 0)) == 0
  {
    SumZero(FromKeys(ks, 0).vals);
  }
}
