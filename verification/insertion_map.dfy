/** A JavaScript `Map` as the colour-scale generators use it: `set` adds a
    new key at the end, or replaces the value of a key already present
    without moving it, and iteration follows insertion order. */
module InsertionMap {
  import opened Wrappers

  /** The keys in insertion order, and the value stored under each. */
  datatype OrderedMap<K, V> = OrderedMap(keys: seq<K>, values: map<K, V>)

  predicate Distinct<T(==)>(s: seq<T>) {
    forall i, j | 0 <= i < j < |s| :: s[i] != s[j]
  }

  /** Every key is listed once, and exactly the listed keys have values. */
  ghost predicate Valid<K(!new), V>(m: OrderedMap<K, V>) {
    && Distinct(m.keys)
    && (forall k :: k in m.values <==> k in m.keys)
  }

  /** `new Map()` */
  function Empty<K(==, !new), V>(): (m: OrderedMap<K, V>)
    ensures Valid(m) && |m.keys| == 0 && m.values == map[]
  {
    OrderedMap([], map[])
  }

  /** `map.get(k)`, with `undefined` as None. */
  function Get<K(==, !new), V>(m: OrderedMap<K, V>, k: K): (r: Option<V>)
    ensures r.Some? <==> k in m.values
    ensures r.Some? ==> r.value == m.values[k]
  {
    if k in m.values then Some(m.values[k]) else None
  }

  /** `map.set(k, v)` */
  function Put<K(==, !new), V>(m: OrderedMap<K, V>, k: K, v: V): (r: OrderedMap<K, V>)
    requires Valid(m)
    ensures Valid(r)
    ensures Get(r, k) == Some(v)
    ensures forall k' | k' != k :: Get(r, k') == Get(m, k')
    ensures m.keys <= r.keys
    ensures |r.keys| == if k in m.values then |m.keys| else |m.keys| + 1
  {
    if k in m.values then OrderedMap(m.keys, m.values[k := v])
    else OrderedMap(m.keys + [k], m.values[k := v])
  }

  /** The position where `k` first occurs in `s`. */
  function FirstIndex<T(==)>(s: seq<T>, k: T): (i: nat)
    requires k in s
    ensures i < |s| && s[i] == k
    ensures forall j | 0 <= j < i :: s[j] != k
  {
    if s[0] == k then 0 else 1 + FirstIndex(s[1..], k)
  }

  /** `keys.forEach(k => map.set(k, f(k)))` on a new map: one entry per
      distinct key, holding `f(k)`; PutAllOrder gives the order. */
  function PutAll<K(==, !new), V>(keys: seq<K>, f: K -> V): (m: OrderedMap<K, V>)
    ensures Valid(m)
    ensures forall k :: k in m.values <==> k in keys
    ensures forall k | k in m.values :: m.values[k] == f(k)
  {
    if |keys| == 0 then Empty()
    else
      var init := keys[..|keys| - 1];
      var last := keys[|keys| - 1];
      assert keys == init + [last];
      Put(PutAll(init, f), last, f(last))
  }

  /** The entries of PutAll follow the first occurrences of their keys. */
  lemma {:induction false} PutAllOrder<K(!new), V>(keys: seq<K>, f: K -> V)
    ensures FirstOccurrenceOrder(keys, PutAll(keys, f).keys)
  {
    if |keys| > 0 {
      var init := keys[..|keys| - 1];
      var last := keys[|keys| - 1];
      PutAllOrder(init, f);
      PutAllStep(keys, f);
      ExtendOrder(init, last, PutAll(init, f).keys);
    }
  }

  /** One more key is added at the end when it is new, and changes no
      position otherwise. */
  lemma PutAllStep<K(!new), V>(keys: seq<K>, f: K -> V)
    requires |keys| > 0
    ensures var init := keys[..|keys| - 1];
            var last := keys[|keys| - 1];
            && keys == init + [last]
            && PutAll(keys, f).keys == (if last in init then PutAll(init, f).keys else PutAll(init, f).keys + [last])
            && forall k :: k in PutAll(init, f).keys <==> k in init
  {
    var init := keys[..|keys| - 1];
    var last := keys[|keys| - 1];
    assert keys == init + [last];
  }

  /** `ks` lists elements of `s` in the order of their first occurrence. */
  ghost predicate FirstOccurrenceOrder<K>(s: seq<K>, ks: seq<K>) {
    && (forall i | 0 <= i < |ks| :: ks[i] in s)
    && (forall i, j | 0 <= i < j < |ks| :: FirstIndex(s, ks[i]) < FirstIndex(s, ks[j]))
  }

  lemma ExtendOrder<K>(init: seq<K>, last: K, ks: seq<K>)
    requires forall k :: k in ks <==> k in init
    requires FirstOccurrenceOrder(init, ks)
    ensures FirstOccurrenceOrder(init + [last], if last in init then ks else ks + [last])
  {
    var s := init + [last];
    var ks' := if last in init then ks else ks + [last];
    forall i | 0 <= i < |ks|
      ensures FirstIndex(s, ks[i]) == FirstIndex(init, ks[i])
    {
      FirstIndexAppend(init, last, ks[i]);
    }
    if last !in init {
      FirstIndexUnique(s, last, |init|);
      assert forall i | 0 <= i < |ks| :: FirstIndex(s, ks[i]) < |init|;
    }
  }

  /** Appending to a sequence leaves the first occurrences already in it
      where they were. */
  lemma FirstIndexAppend<T>(s: seq<T>, x: T, k: T)
    requires k in s
    ensures FirstIndex(s + [x], k) == FirstIndex(s, k)
  {
    FirstIndexUnique(s + [x], k, FirstIndex(s, k));
  }

  /** FirstIndex is the only position holding `k` with no `k` before it. */
  lemma FirstIndexUnique<T>(s: seq<T>, k: T, i: nat)
    requires i < |s| && s[i] == k
    requires forall j | 0 <= j < i :: s[j] != k
    ensures FirstIndex(s, k) == i
  {
  }

  /** The keys of `keys.forEach(k => map.set(k, f(k)))` are exactly the
      distinct elements of `keys` in order of first occurrence: any
      duplicate-free listing of them in that order is the map's. */
  lemma PutAllKeys<K(!new), V>(keys: seq<K>, f: K -> V, ks: seq<K>)
    requires Distinct(ks) && (forall k :: k in ks <==> k in keys)
    requires FirstOccurrenceOrder(keys, ks)
    ensures PutAll(keys, f).keys == ks
  {
    var m := PutAll(keys, f);
    PutAllOrder(keys, f);
    OrderByFirstIndex(keys, m.keys, ks);
  }

  /** Two duplicate-free listings of the elements of `s`, both in order of
      first occurrence, are the same. */
  lemma {:induction false} OrderByFirstIndex<K(!new)>(s: seq<K>, a: seq<K>, b: seq<K>)
    requires Distinct(a) && Distinct(b)
    requires forall k :: k in a <==> k in s
    requires forall k :: k in b <==> k in s
    requires FirstOccurrenceOrder(s, a) && FirstOccurrenceOrder(s, b)
    ensures a == b
    decreases |a|
  {
    SameElementsNonEmpty(a, s);
    SameElementsNonEmpty(b, s);
    if |s| > 0 {
      // both start with the element of s that occurs first
      FirstIsEarliest(s, a);
      FirstIsEarliest(s, b);
      var x := a[0];
      var s' := Remove(s, x);
      TailOrder(s, a);
      TailOrder(s, b);
      OrderByFirstIndex(s', a[1..], b[1..]);
    }
  }

  /** Dropping the head of an ordered listing of `s` leaves an ordered
      listing of `s` without that head. */
  lemma TailOrder<K(!new)>(s: seq<K>, a: seq<K>)
    requires |a| > 0 && Distinct(a)
    requires forall k :: k in a <==> k in s
    requires FirstOccurrenceOrder(s, a)
    ensures Distinct(a[1..])
    ensures forall k :: k in a[1..] <==> k in Remove(s, a[0])
    ensures FirstOccurrenceOrder(Remove(s, a[0]), a[1..])
  {
    var x, t, s' := a[0], a[1..], Remove(s, a[0]);
    forall k ensures k in t <==> k in s' {
      assert k in t <==> k in a && k != x;
    }
    RemovePreservesOrder(s, x);
    forall i, j | 0 <= i < j < |t|
      ensures FirstIndex(s', t[i]) < FirstIndex(s', t[j])
    {
      assert t[i] == a[i + 1] && t[j] == a[j + 1];
      assert FirstIndex(s, a[i + 1]) < FirstIndex(s, a[j + 1]);
    }
  }

  lemma SameElementsNonEmpty<T>(a: seq<T>, s: seq<T>)
    requires forall k :: k in a <==> k in s
    ensures |a| > 0 <==> |s| > 0
  {
    if |a| > 0 {
      assert a[0] in s;
    }
    if |s| > 0 {
      assert s[0] in a;
    }
  }

  /** The first key of a sequence ordered by first occurrence in `s` is the
      one that occurs first. */
  lemma FirstIsEarliest<K>(s: seq<K>, a: seq<K>)
    requires |a| > 0
    requires forall k :: k in a <==> k in s
    requires FirstOccurrenceOrder(s, a)
    ensures FirstIndex(s, a[0]) == 0
  {
    assert a[0] in s;
    assert s[0] in a;
    var idx :| 0 <= idx < |a| && a[idx] == s[0];
    assert FirstIndex(s, s[0]) == 0;
  }

  /** `s` without any occurrence of `x`. */
  function Remove<T(==, !new)>(s: seq<T>, x: T): (r: seq<T>)
    ensures forall k :: k in r <==> k in s && k != x
  {
    if |s| == 0 then []
    else if s[0] == x then Remove(s[1..], x)
    else [s[0]] + Remove(s[1..], x)
  }

  /** Removing an element keeps the relative order of the first
      occurrences of the others. */
  lemma {:induction false} RemovePreservesOrder<T(!new)>(s: seq<T>, x: T)
    ensures forall k, l | k in s && l in s && k != x && l != x ::
              FirstIndex(s, k) < FirstIndex(s, l) <==> FirstIndex(Remove(s, x), k) < FirstIndex(Remove(s, x), l)
  {
    if |s| > 0 {
      RemovePreservesOrder(s[1..], x);
      forall k, l | k in s && l in s && k != x && l != x
        ensures FirstIndex(s, k) < FirstIndex(s, l) <==> FirstIndex(Remove(s, x), k) < FirstIndex(Remove(s, x), l)
      {
        if s[0] == x {
          assert Remove(s, x) == Remove(s[1..], x);
          assert FirstIndex(s, k) == 1 + FirstIndex(s[1..], k);
          assert FirstIndex(s, l) == 1 + FirstIndex(s[1..], l);
        } else if s[0] == k || s[0] == l {
          assert Remove(s, x)[0] == s[0];
        } else {
          assert Remove(s, x) == [s[0]] + Remove(s[1..], x);
          assert FirstIndex(Remove(s, x), k) == 1 + FirstIndex(Remove(s[1..], x), k);
          assert FirstIndex(Remove(s, x), l) == 1 + FirstIndex(Remove(s[1..], x), l);
        }
      }
    }
  }
}
