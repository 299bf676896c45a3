/**
 * A model of java.util.TreeMap with natural-number keys: an association list
 * whose keys are strictly increasing.  Iterating over `values()` visits the
 * values in key order, which is what gives the adapter registry its ordering
 * by service reference.
 */
module SortedMaps {
  import opened Wrappers

  datatype Entry<V> = Entry(key: nat, value: V)

  /** Keys strictly increase from left to right (so no key occurs twice). */
  ghost predicate Sorted<V>(es: seq<Entry<V>>) {
    forall i, j :: 0 <= i < j < |es| ==> es[i].key < es[j].key
  }

  function Keys<V>(es: seq<Entry<V>>): set<nat> {
    if es == [] then {} else {es[0].key} + Keys(es[1..])
  }

  /** `TreeMap.values()`: the values in ascending key order. */
  function Values<V>(es: seq<Entry<V>>): seq<V> {
    if es == [] then [] else [es[0].value] + Values(es[1..])
  }

  lemma {:induction false} ValuesAt<V>(es: seq<Entry<V>>)
    ensures |Values(es)| == |es|
    ensures forall i :: 0 <= i < |es| ==> Values(es)[i] == es[i].value
    decreases |es|
  {
    if es != [] {
      ValuesAt(es[1..]);
    }
  }

  /** `TreeMap.get(key)`; `None` stands for `null`. */
  function Get<V>(es: seq<Entry<V>>, k: nat): (r: Option<V>)
    ensures r.None? <==> k !in Keys(es)
    ensures r.Some? ==> Entry(k, r.value) in es
  {
    if es == [] then None
    else if es[0].key == k then Some(es[0].value)
    else
      Get(es[1..], k)
  }

  /** `TreeMap.put(key, value)`: inserts, or replaces the value of an existing key. */
  function Put<V>(es: seq<Entry<V>>, k: nat, v: V): (r: seq<Entry<V>>)
    requires Sorted(es)
    ensures Sorted(r)
    ensures Keys(r) == Keys(es) + {k}
  {
    if es == [] then [Entry(k, v)]
    else if k < es[0].key then
      assert ([Entry(k, v)] + es)[1..] == es;
      [Entry(k, v)] + es
    else if k == es[0].key then
      assert ([Entry(k, v)] + es[1..])[1..] == es[1..];
      [Entry(k, v)] + es[1..]
    else
      var rest := Put(es[1..], k, v);
      assert ([es[0]] + rest)[1..] == rest;
      [es[0]] + rest
  }

  /** After `Put`, `k` maps to `v`, every other key keeps its value, and no other entry appears. */
  lemma {:induction false} PutContents<V>(es: seq<Entry<V>>, k: nat, v: V)
    requires Sorted(es)
    ensures Get(Put(es, k, v), k) == Some(v)
    ensures forall j :: j != k ==> Get(Put(es, k, v), j) == Get(es, j)
    ensures forall e :: e in Put(es, k, v) ==> e == Entry(k, v) || e in es
  {
    if es == [] {
    } else if k < es[0].key {
      assert ([Entry(k, v)] + es)[1..] == es;
    } else if k == es[0].key {
      assert ([Entry(k, v)] + es[1..])[1..] == es[1..];
    } else {
      PutContents(es[1..], k, v);
      var rest := Put(es[1..], k, v);
      assert ([es[0]] + rest)[1..] == rest;
    }
  }

  /** `TreeMap.remove(key)`: drops the entry of `k`, if there is one. */
  function Remove<V>(es: seq<Entry<V>>, k: nat): (r: seq<Entry<V>>)
    requires Sorted(es)
    ensures Sorted(r)
    ensures Keys(r) == Keys(es) - {k}
  {
    if es == [] then []
    else if es[0].key == k then
      KeysAbove(es[1..], k);
      es[1..]
    else if k < es[0].key then
      KeysAbove(es, k);
      es
    else
      var rest := Remove(es[1..], k);
      assert ([es[0]] + rest)[1..] == rest;
      [es[0]] + rest
  }

  /** After `Remove`, `k` is absent, every other key keeps its value, and nothing is added. */
  lemma {:induction false} RemoveContents<V>(es: seq<Entry<V>>, k: nat)
    requires Sorted(es)
    ensures Get(Remove(es, k), k).None?
    ensures forall j :: j != k ==> Get(Remove(es, k), j) == Get(es, j)
    ensures forall e :: e in Remove(es, k) ==> e in es
    ensures k !in Keys(es) ==> Remove(es, k) == es
  {
    if es == [] {
    } else if es[0].key == k {
      KeysAbove(es[1..], k);
    } else if k < es[0].key {
      KeysAbove(es, k);
    } else {
      RemoveContents(es[1..], k);
      var rest := Remove(es[1..], k);
      assert ([es[0]] + rest)[1..] == rest;
    }
  }

  /** In a sorted map every key lies above a bound that lies below its first key. */
  lemma {:induction false} KeysAbove<V>(es: seq<Entry<V>>, b: nat)
    requires Sorted(es)
    requires es != [] ==> b < es[0].key
    ensures forall x :: x in Keys(es) ==> b < x
  {
    if es != [] {
      KeysAbove(es[1..], b);
    }
  }
}
