/** JavaScript `Map` and `Set` as sequences of entries in insertion order. `set` on a present key
    keeps the entry's position and replaces its value; `add` on a present element does nothing. */
module OrderedMaps {
  import opened Wrappers

  predicate KeysDistinct<K(==), V>(m: seq<(K, V)>) {
    forall i, j :: 0 <= i < j < |m| ==> m[i].0 != m[j].0
  }

  function Keys<K, V>(m: seq<(K, V)>): (r: seq<K>)
    ensures |r| == |m| && forall i :: 0 <= i < |m| ==> r[i] == m[i].0
  {
    if m == [] then [] else [m[0].0] + Keys(m[1..])
  }

  /** `Array.from(map.values())`. */
  function Values<K, V>(m: seq<(K, V)>): (r: seq<V>)
    ensures |r| == |m| && forall i :: 0 <= i < |m| ==> r[i] == m[i].1
  {
    if m == [] then [] else [m[0].1] + Values(m[1..])
  }

  /** The position of a key. */
  function IndexOf<K(==), V>(m: seq<(K, V)>, k: K): (r: Option<nat>)
    ensures r.Some? ==> r.value < |m| && m[r.value].0 == k
    ensures r.None? ==> forall i :: 0 <= i < |m| ==> m[i].0 != k
  {
    if m == [] then None
    else if m[0].0 == k then Some(0)
    else match IndexOf(m[1..], k)
      case None => None
      case Some(i) => Some(i + 1)
  }

  lemma {:induction false} IndexOfDistinct<K, V>(m: seq<(K, V)>, i: nat)
    requires KeysDistinct(m) && i < |m|
    ensures IndexOf(m, m[i].0) == Some(i)
  {
    if i > 0 {
      assert KeysDistinct(m[1..]) by {
        forall a, b | 0 <= a < b < |m[1..]| ensures m[1..][a].0 != m[1..][b].0 {
          assert m[1..][a] == m[a + 1] && m[1..][b] == m[b + 1];
        }
      }
      IndexOfDistinct(m[1..], i - 1);
    }
  }

  /** `map.get(k)`. */
  function Get<K(==), V>(m: seq<(K, V)>, k: K): (r: Option<V>)
    ensures r.Some? <==> k in Keys(m)
    ensures r.Some? ==> (k, r.value) in m
  {
    match IndexOf(m, k)
    case None => None
    case Some(i) => Some(m[i].1)
  }

  /** `map.set(k, v)`. */
  function Put<K(==), V>(m: seq<(K, V)>, k: K, v: V): (r: seq<(K, V)>)
    ensures k in Keys(m) ==> |r| == |m| && Keys(r) == Keys(m)
    ensures k !in Keys(m) ==> r == m + [(k, v)]
    ensures (k, v) in r
    ensures forall i :: 0 <= i < |m| && m[i].0 != k ==> r[i] == m[i]
    ensures KeysDistinct(m) ==> KeysDistinct(r)
  {
    match IndexOf(m, k)
    case None => m + [(k, v)]
    case Some(i) => m[i := (k, v)]
  }

  /** After `set`, `get` finds the new value. */
  lemma PutThenGet<K, V>(m: seq<(K, V)>, k: K, v: V)
    requires KeysDistinct(m)
    ensures Get(Put(m, k, v), k) == Some(v)
  {
    var r := Put(m, k, v);
    match IndexOf(m, k)
    case None =>
      IndexOfDistinct(r, |m|);
    case Some(i) =>
      IndexOfDistinct(r, i);
  }

  /** Setting a key twice: the last value wins, in the place the first gave it. */
  lemma PutPut<K, V>(m: seq<(K, V)>, k: K, v: V, w: V)
    requires KeysDistinct(m)
    ensures Put(Put(m, k, v), k, w) == Put(m, k, w)
  {
    var r := Put(m, k, v);
    match IndexOf(m, k)
    case None =>
      IndexOfDistinct(r, |m|);
    case Some(i) =>
      IndexOfDistinct(r, i);
  }

  /** The last entry of a map is found, and replaced in place, by its key. */
  lemma PutLast<K, V>(pre: seq<(K, V)>, k: K, a: V, b: V)
    requires KeysDistinct(pre) && k !in Keys(pre)
    ensures Get(pre + [(k, a)], k) == Some(a)
    ensures Put(pre + [(k, a)], k, b) == pre + [(k, b)]
  {
    var m := Put(pre, k, a);
    IndexOfDistinct(m, |pre|);
  }

  /** `set.add(x)`. */
  function SetAdd<T(==)>(s: seq<T>, x: T): (r: seq<T>)
    ensures x in s ==> r == s
    ensures x !in s ==> r == s + [x]
  {
    if x in s then s else s + [x]
  }

  predicate Distinct<T(==)>(s: seq<T>) {
    forall i, j :: 0 <= i < j < |s| ==> s[i] != s[j]
  }

  lemma SetAddKeepsDistinct<T>(s: seq<T>, x: T)
    requires Distinct(s)
    ensures Distinct(SetAdd(s, x))
  {
  }
}
