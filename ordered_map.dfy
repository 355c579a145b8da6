/**
 * Insertion-ordered maps, as Guava's ImmutableMap and java.util.LinkedHashMap
 * present them: a sequence of entries whose order is the iteration order.
 */
module OrderedMap {

  datatype Option<T> = None | Some(value: T)

  datatype Entry<K, T> = Entry(key: K, value: T)

  /** keySet(), in iteration order. */
  function Keys<K, T>(es: seq<Entry<K, T>>): (ks: seq<K>)
    ensures |ks| == |es|
    ensures forall i :: 0 <= i < |es| ==> ks[i] == es[i].key
  {
    if |es| == 0 then [] else [es[0].key] + Keys(es[1..])
  }

  /** No key occurs twice: the invariant of every Java map. */
  predicate DistinctKeys<K(==), T>(es: seq<Entry<K, T>>)
  {
    forall i, j :: 0 <= i < j < |es| ==> es[i].key != es[j].key
  }

  lemma DistinctKeysPrefix<K, T>(es: seq<Entry<K, T>>, n: nat)
    requires n <= |es| && DistinctKeys(es)
    ensures DistinctKeys(es[..n])
  {
    assert forall i :: 0 <= i < n ==> es[..n][i] == es[i];
  }

  /** get(k), with None for an absent key. */
  function Get<K(==), T>(es: seq<Entry<K, T>>, k: K): Option<T>
  {
    if |es| == 0 then None
    else if es[0].key == k then Some(es[0].value)
    else Get(es[1..], k)
  }

  /** LinkedHashMap.put(k, v): a present key keeps its position and takes
      the new value; an absent key is added at the end. */
  function Put<K(==), T>(es: seq<Entry<K, T>>, k: K, v: T): (r: seq<Entry<K, T>>)
    ensures Keys(r) == if k in Keys(es) then Keys(es) else Keys(es) + [k]
  {
    if |es| == 0 then [Entry(k, v)]
    else if es[0].key == k then [Entry(k, v)] + es[1..]
    else
      assert Keys(es) == [es[0].key] + Keys(es[1..]);
      [es[0]] + Put(es[1..], k, v)
  }

  /** After put(k, v), get(k) is v and every other key reads as before. */
  lemma {:induction false} GetPut<K, T>(es: seq<Entry<K, T>>, k: K, v: T, k': K)
    ensures Get(Put(es, k, v), k') == if k' == k then Some(v) else Get(es, k')
  {
    if |es| > 0 && es[0].key != k {
      GetPut(es[1..], k, v, k');
      assert Put(es, k, v)[1..] == Put(es[1..], k, v);
    }
  }

  lemma GetPutAll<K, T>(es: seq<Entry<K, T>>, k: K, v: T)
    ensures forall k' :: Get(Put(es, k, v), k') == if k' == k then Some(v) else Get(es, k')
  {
    forall k' ensures Get(Put(es, k, v), k') == if k' == k then Some(v) else Get(es, k') {
      GetPut(es, k, v, k');
    }
  }

  /** Putting an absent key appends it at the end. */
  lemma {:induction false} PutAppends<K, T>(es: seq<Entry<K, T>>, k: K, v: T)
    requires k !in Keys(es)
    ensures Put(es, k, v) == es + [Entry(k, v)]
  {
    if |es| > 0 {
      assert es[0].key == Keys(es)[0];
      assert Keys(es[1..]) == Keys(es)[1..];
      PutAppends(es[1..], k, v);
      assert es == [es[0]] + es[1..];
    }
  }

  /** Putting an absent key appends it and keeps the keys distinct. */
  lemma PutFresh<K, T>(es: seq<Entry<K, T>>, k: K, v: T)
    requires k !in Keys(es)
    ensures Put(es, k, v) == es + [Entry(k, v)]
    ensures DistinctKeys(es) ==> DistinctKeys(Put(es, k, v))
  {
    PutAppends(es, k, v);
    var r := es + [Entry(k, v)];
    forall i | 0 <= i < |es| ensures r[i].key != k {
      assert r[i].key == Keys(es)[i];
    }
  }

  /** Appending an absent key: the key order gains it at the end, the old
      entries stay in front, every lookup is as put(k, v) gives it, and
      distinct keys stay distinct. */
  lemma AppendFresh<K, T>(es: seq<Entry<K, T>>, k: K, v: T)
    requires k !in Keys(es)
    ensures Keys(es + [Entry(k, v)]) == Keys(es) + [k]
    ensures (es + [Entry(k, v)])[..|es|] == es
    ensures forall k' :: Get(es + [Entry(k, v)], k') == if k' == k then Some(v) else Get(es, k')
    ensures DistinctKeys(es) ==> DistinctKeys(es + [Entry(k, v)])
  {
    PutFresh(es, k, v);
    GetPutAll(es, k, v);
  }
}
