/**
 * PHP associative arrays as the library uses them: keys in insertion order
 * plus the key-to-value map. Writing an existing key keeps its position;
 * writing a new key appends it.
 */
module Collections {

  datatype OrderedMap<K, V> = OrderedMap(keys: seq<K>, vals: map<K, V>)

  /** The keys are distinct and are exactly the keys of the map. */
  ghost predicate Valid<K, V>(m: OrderedMap<K, V>)
  {
    && (forall i, j :: 0 <= i < j < |m.keys| ==> m.keys[i] != m.keys[j])
    && (forall k :: k in m.vals ==> k in m.keys)
    && (forall i :: 0 <= i < |m.keys| ==> m.keys[i] in m.vals)
  }

  function Empty<K, V>(): (r: OrderedMap<K, V>)
    ensures Valid(r) && r.keys == [] && r.vals == map[]
  {
    OrderedMap([], map[])
  }

  /** `$m[$k] = $v`. */
  function Put<K, V>(m: OrderedMap<K, V>, k: K, v: V): (r: OrderedMap<K, V>)
    requires Valid(m)
    ensures Valid(r)
    ensures r.vals == m.vals[k := v]
    ensures r.keys == if k in m.vals then m.keys else m.keys + [k]
  {
    if k in m.vals then OrderedMap(m.keys, m.vals[k := v])
    else OrderedMap(m.keys + [k], m.vals[k := v])
  }

  /**
   * `foreach ($items as $x) { $m[key($x)] = $x; }` starting from an empty
   * array: the keys present are exactly the keys of the items.
   */
  function KeyBy<K, V>(items: seq<V>, key: V -> K): (r: OrderedMap<K, V>)
    ensures Valid(r)
    ensures forall k :: k in r.vals ==> exists i :: 0 <= i < |items| && key(items[i]) == k
    ensures forall i :: 0 <= i < |items| ==> key(items[i]) in r.vals
    decreases |items|
  {
    if items == [] then Empty()
    else
      var init := items[..|items| - 1];
      var last := items[|items| - 1];
      var m := KeyBy(init, key);
      assert forall i :: 0 <= i < |init| ==> init[i] == items[i];
      Put(m, key(last), last)
  }

  /** Each item is stored under its own key. */
  lemma {:induction false} KeyByStoresUnderOwnKey<K, V>(items: seq<V>, key: V -> K)
    ensures forall k :: k in KeyBy(items, key).vals ==> key(KeyBy(items, key).vals[k]) == k
    decreases |items|
  {
    if items != [] {
      KeyByStoresUnderOwnKey(items[..|items| - 1], key);
    }
  }

  /** The item stored under a key is the last item with that key. */
  lemma {:induction false} KeyByLastWins<K, V>(items: seq<V>, key: V -> K, i: int)
    requires 0 <= i < |items|
    requires forall j :: i < j < |items| ==> key(items[j]) != key(items[i])
    ensures KeyBy(items, key).vals[key(items[i])] == items[i]
    decreases |items|
  {
    var init := items[..|items| - 1];
    if i < |items| - 1 {
      assert forall j :: i < j < |init| ==> init[j] == items[j];
      KeyByLastWins(init, key, i);
    }
  }

  /** The elements of `s` that satisfy `p`, in order. */
  function Select<T>(s: seq<T>, p: T -> bool): (r: seq<T>)
    ensures forall x :: x in r ==> x in s && p(x)
    decreases |s|
  {
    if s == [] then []
    else Select(s[..|s| - 1], p) + (if p(s[|s| - 1]) then [s[|s| - 1]] else [])
  }

  lemma {:induction false} SelectAppend<T>(a: seq<T>, b: seq<T>, p: T -> bool)
    ensures Select(a + b, p) == Select(a, p) + Select(b, p)
    decreases |b|
  {
    if b != [] {
      var init := b[..|b| - 1];
      assert (a + b)[..|a + b| - 1] == a + init;
      assert (a + b)[|a + b| - 1] == b[|b| - 1];
      SelectAppend(a, init, p);
      var x := if p(b[|b| - 1]) then [b[|b| - 1]] else [];
      assert Select(a + b, p) == Select(a + init, p) + x;
      assert Select(b, p) == Select(init, p) + x;
      assert Select(a + b, p) == Select(a, p) + Select(init, p) + x;
    } else {
      assert a + b == a;
    }
  }

  /** Some element of `s` satisfies `p`. */
  predicate Any<T>(s: seq<T>, p: T -> bool)
  {
    exists i :: 0 <= i < |s| && p(s[i])
  }

  /** Some element satisfies `p` exactly when one before the last does or the last one does. */
  lemma AnyLast<T>(s: seq<T>, p: T -> bool)
    requires s != []
    ensures Any(s, p) <==> Any(s[..|s| - 1], p) || p(s[|s| - 1])
  {
    var init := s[..|s| - 1];
    if Any(init, p) {
      var i :| 0 <= i < |init| && p(init[i]);
      assert s[i] == init[i];
    }
    if Any(s, p) {
      var i :| 0 <= i < |s| && p(s[i]);
      if i < |init| {
        assert s[i] == init[i];
      }
    }
  }
}
