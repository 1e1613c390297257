/** `signalize(obj)`: a view of an object's properties as signals. Every
    property starts as a signal of its value; reading a property that does
    not exist creates an empty signal for it on the spot, so every key is
    reported present. The `Proxy` becomes the explicit operations `Get`,
    `Has` and `OwnKeys` over an insertion-ordered map. */
module Signalize {
  import opened Js

  /** A signal, by the value it holds (`undefined` is `None`). */
  datatype Sig<V> = Sig(current: Option<V>)

  /** `sig.as(value)`, for a value that is not already a signal. */
  function As<V>(v: V): Sig<V> {
    Sig(Some(v))
  }

  /** The entries map: its keys in insertion order, and the signals. */
  datatype Store<V> = Store(keys: seq<string>, entries: map<string, Sig<V>>)

  predicate Distinct(keys: seq<string>) {
    forall i, j :: 0 <= i < j < |keys| ==> keys[i] != keys[j]
  }

  /** The keys listed are exactly the keys of the map, once each. */
  predicate Valid<V>(s: Store<V>) {
    Distinct(s.keys) && s.entries.Keys == set k | k in s.keys
  }

  function Keys<V>(obj: seq<(string, V)>): (r: seq<string>)
    ensures |r| == |obj| && forall i :: 0 <= i < |obj| ==> r[i] == obj[i].0
  {
    seq(|obj|, i requires 0 <= i < |obj| => obj[i].0)
  }

  /** `new Map(entries)` after each value is wrapped with `sig.as`. */
  function Entries<V>(obj: seq<(string, V)>): (m: map<string, Sig<V>>)
    requires Distinct(Keys(obj))
    ensures forall k :: k in m <==> k in Keys(obj)
    ensures forall i :: 0 <= i < |obj| ==> m[obj[i].0] == As(obj[i].1)
  {
    if obj == [] then map[]
    else
      var n := |obj| - 1;
      assert Keys(obj[..n]) == Keys(obj)[..n];
      var m := Entries(obj[..n]);
      m[obj[n].0 := As(obj[n].1)]
  }

  /** `signalize(obj)`, given `Object.entries(obj)`, whose keys are distinct. */
  function Signalize<V>(obj: seq<(string, V)>): (s: Store<V>)
    requires Distinct(Keys(obj))
    ensures Valid(s) && s.keys == Keys(obj)
    ensures forall i :: 0 <= i < |obj| ==> s.entries[obj[i].0] == As(obj[i].1)
  {
    Store(Keys(obj), Entries(obj))
  }

  datatype Got<V> = Got(store: Store<V>, signal: Sig<V>)

  /** The `get` trap: an existing entry is returned as it is; a missing one
      is created empty, recorded, and returned. */
  function Get<V>(s: Store<V>, key: string): (r: Got<V>)
    ensures key in s.entries ==> r == Got(s, s.entries[key])
    ensures key !in s.entries ==>
      (r.signal == Sig(None) && r.store == Store(s.keys + [key], s.entries[key := Sig(None)]))
  {
    if key in s.entries then Got(s, s.entries[key])
    else
      var empty := Sig(None);
      Got(Store(s.keys + [key], s.entries[key := empty]), empty)
  }

  /** The `has` trap: every key is reported present. */
  predicate Has<V>(s: Store<V>, key: string) {
    true
  }

  /** The `ownKeys` trap: the map's keys, in insertion order. */
  function OwnKeys<V>(s: Store<V>): seq<string> {
    s.keys
  }

  // ---------------------------------------------------------------------------
  // Properties

  /** A read keeps the store valid; afterwards the key is listed by
      `ownKeys`, and a second read returns the same signal and changes
      nothing. */
  lemma GetStable<V>(s: Store<V>, key: string)
    requires Valid(s)
    ensures var g := Get(s, key);
      && Valid(g.store)
      && key in OwnKeys(g.store)
      && Get(g.store, key) == Got(g.store, g.signal)
  {
    if key !in s.entries {
      var keys := s.keys + [key];
      assert keys[|keys| - 1] == key;
    }
  }

  /** Reads never lose a key or change an existing signal. */
  lemma GetKeepsEntries<V>(s: Store<V>, key: string, other: string)
    requires Valid(s) && other in s.entries
    ensures other in Get(s, key).store.entries && Get(s, key).store.entries[other] == s.entries[other]
    ensures s.keys == Get(s, key).store.keys[..|s.keys|]
  {
  }

  /** Every key of the object reads as the signal of its value, whatever
      other keys were read before. */
  lemma ReadsOfSignalized<V>(obj: seq<(string, V)>, i: nat, other: string)
    requires Distinct(Keys(obj)) && i < |obj|
    ensures var s := Get(Signalize(obj), other).store;
      Get(s, obj[i].0).signal == As(obj[i].1)
  {
    var s0 := Signalize(obj);
    assert obj[i].0 in Keys(obj);
  }
}
