/**
 * An insertion-ordered map written as a sequence of key/value pairs with
 * distinct keys. It stands for the two insertion-ordered containers of the
 * status checker: the plain object holding a snapshot's components (whose
 * `Object.entries` order is insertion order, and where assigning an existing
 * key keeps its position) and the `Map` of recently sent messages.
 */
module Entries {
  import opened Options

  function Keys<K, V>(m: seq<(K, V)>): (ks: seq<K>)
    ensures |ks| == |m|
    ensures forall i :: 0 <= i < |m| ==> ks[i] == m[i].0
  {
    seq(|m|, i requires 0 <= i < |m| => m[i].0)
  }

  predicate DistinctKeys<K(==), V>(m: seq<(K, V)>) {
    forall i, j :: 0 <= i < j < |m| ==> m[i].0 != m[j].0
  }

  predicate HasKey<K(==), V>(m: seq<(K, V)>, k: K) {
    k in Keys(m)
  }

  /** `m.get(k)` / `obj[k]`: the value of the first entry with key `k`. */
  function Find<K(==), V>(m: seq<(K, V)>, k: K): (r: Option<V>)
    ensures r.None? <==> !HasKey(m, k)
    ensures r.Some? ==> (k, r.value) in m
  {
    if |m| == 0 then None
    else if m[0].0 == k then Some(m[0].1)
    else
      assert Keys(m) == [m[0].0] + Keys(m[1..]);
      Find(m[1..], k)
  }

  /** With distinct keys the entry found is the only one with that key. */
  lemma FindDistinct<K, V>(m: seq<(K, V)>, i: nat)
    requires DistinctKeys(m) && i < |m|
    ensures Find(m, m[i].0) == Some(m[i].1)
  {
  }

  /** `obj[k] = v`: overwrite in place when `k` is present, otherwise append. */
  function Put<K(==), V>(m: seq<(K, V)>, k: K, v: V): (r: seq<(K, V)>)
    ensures HasKey(m, k) ==> Keys(r) == Keys(m)
    ensures !HasKey(m, k) ==> Keys(r) == Keys(m) + [k]
  {
    if |m| == 0 then [(k, v)]
    else if m[0].0 == k then [(k, v)] + m[1..]
    else [m[0]] + Put(m[1..], k, v)
  }

  /** `obj[k] = v` never creates a second entry for a key. */
  lemma PutDistinct<K, V>(m: seq<(K, V)>, k: K, v: V)
    requires DistinctKeys(m)
    ensures DistinctKeys(Put(m, k, v))
  {
    var r := Put(m, k, v);
    forall i, j | 0 <= i < j < |r| ensures r[i].0 != r[j].0 {
      assert Keys(r)[i] == r[i].0 && Keys(r)[j] == r[j].0;
      if j < |m| {
        assert Keys(m)[i] == m[i].0 && Keys(m)[j] == m[j].0;
      } else {
        assert !HasKey(m, k) && Keys(r)[j] == k;
        assert Keys(m)[i] == m[i].0;
      }
    }
  }

  /** After `obj[k] = v`, reading `k` gives `v` and every other key reads as before. */
  lemma {:induction false} PutFind<K, V>(m: seq<(K, V)>, k: K, v: V, k': K)
    ensures Find(Put(m, k, v), k') == if k' == k then Some(v) else Find(m, k')
  {
    if |m| > 0 && m[0].0 != k {
      PutFind(m[1..], k, v, k');
    }
  }

  /** A map whose entries all occur in `b` has only keys of `b`, and reads them as `b` does when `b`'s keys are distinct. */
  lemma SubEntries<K, V>(a: seq<(K, V)>, b: seq<(K, V)>, k: K)
    requires forall e :: e in a ==> e in b
    ensures HasKey(a, k) ==> HasKey(b, k)
    ensures DistinctKeys(b) && HasKey(a, k) ==> Find(a, k) == Find(b, k)
  {
    if HasKey(a, k) {
      var i :| 0 <= i < |a| && Keys(a)[i] == k;
      assert a[i] in b;
      var j :| 0 <= j < |b| && b[j] == a[i];
      assert Keys(b)[j] == k;
      if DistinctKeys(b) {
        var v := Find(a, k).value;
        assert (k, v) in b;
        var j' :| 0 <= j' < |b| && b[j'] == (k, v);
        FindDistinct(b, j');
      }
    }
  }

  /** A property every old entry and the new entry have holds of every entry after `Put`. */
  lemma {:induction false} PutAll<K, V>(m: seq<(K, V)>, k: K, v: V, p: ((K, V)) -> bool)
    requires forall i :: 0 <= i < |m| ==> p(m[i])
    requires p((k, v))
    ensures forall i :: 0 <= i < |Put(m, k, v)| ==> p(Put(m, k, v)[i])
  {
    if |m| > 0 && m[0].0 != k {
      PutAll(m[1..], k, v, p);
    }
  }

  /** `s.indexOf(x)` on an array: the position of the first `x`, if any. */
  function FirstIndex<T(==)>(s: seq<T>, x: T): (r: Option<nat>)
    ensures r.None? <==> x !in s
    ensures r.Some? ==> r.value < |s| && s[r.value] == x && x !in s[..r.value]
  {
    if |s| == 0 then None
    else if s[0] == x then Some(0)
    else
      match FirstIndex(s[1..], x)
      case None => None
      case Some(i) =>
        assert s[..i + 1] == [s[0]] + s[1..][..i];
        Some(i + 1)
  }

  lemma ConcatAssoc<T>(a: seq<T>, b: seq<T>, c: seq<T>)
    ensures a + b + c == a + (b + c)
  {
  }

  /** Appending leaves the first position of an element already present unchanged. */
  lemma {:induction false} FirstIndexAppend<T>(s: seq<T>, y: T, x: T)
    requires x in s
    ensures FirstIndex(s + [y], x) == FirstIndex(s, x)
  {
    if s[0] != x {
      assert (s + [y])[1..] == s[1..] + [y];
      FirstIndexAppend(s[1..], y, x);
    }
  }

  /** After appending, the old elements keep their first positions, and a new element is found at the end. */
  lemma FirstIndexSnoc<T>(s: seq<T>, y: T)
    ensures forall x :: x in s ==> FirstIndex(s + [y], x) == FirstIndex(s, x)
    ensures y !in s ==> FirstIndex(s + [y], y) == Some(|s|)
  {
    forall x | x in s ensures FirstIndex(s + [y], x) == FirstIndex(s, x) {
      FirstIndexAppend(s, y, x);
    }
    if y !in s {
      assert (s + [y])[..|s|] == s;
    }
  }

  /** `s.lastIndexOf(x)` on an array: the position of the last `x`, if any. */
  function LastIndex<T(==)>(s: seq<T>, x: T): (r: Option<nat>)
    ensures r.None? <==> x !in s
    ensures r.Some? ==> r.value < |s| && s[r.value] == x && x !in s[r.value + 1..]
  {
    if |s| == 0 then None
    else if s[|s| - 1] == x then Some(|s| - 1)
    else
      var r := LastIndex(s[..|s| - 1], x);
      assert r.Some? ==> s[r.value + 1..] == s[..|s| - 1][r.value + 1..] + [s[|s| - 1]];
      assert s == s[..|s| - 1] + [s[|s| - 1]];
      r
  }
}
