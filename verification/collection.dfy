/** discord.js `Collection<string, V>`: a JavaScript `Map` whose iteration
    order is first-insertion order. `set` on an existing key replaces the value
    in place; a new key goes to the end. */
module Collection {
  import opened Wrappers

  datatype Entry<V> = Entry(key: string, value: V)

  type Coll<V> = seq<Entry<V>>

  function Keys<V>(c: Coll<V>): (r: seq<string>)
    ensures |r| == |c|
    ensures forall i :: 0 <= i < |c| ==> r[i] == c[i].key
  {
    seq(|c|, i requires 0 <= i < |c| => c[i].key)
  }

  /** `collection.values()`, in iteration order. */
  function Values<V>(c: Coll<V>): (r: seq<V>)
    ensures |r| == |c|
    ensures forall i :: 0 <= i < |c| ==> r[i] == c[i].value
  {
    seq(|c|, i requires 0 <= i < |c| => c[i].value)
  }

  /** A map has each key at most once. */
  ghost predicate UniqueKeys<V>(c: Coll<V>)
  {
    forall i, j :: 0 <= i < j < |c| ==> c[i].key != c[j].key
  }

  /** `collection.get(key)`. */
  function Get<V(==)>(c: Coll<V>, key: string): (r: Option<V>)
    ensures r.None? <==> key !in Keys(c)
  {
    if c == [] then None
    else if c[0].key == key then Some(c[0].value)
    else
      assert Keys(c) == [c[0].key] + Keys(c[1..]);
      Get(c[1..], key)
  }

  /** Looking up in a collection that starts with `e`. */
  lemma GetCons<V>(e: Entry<V>, rest: Coll<V>, key: string)
    ensures Get([e] + rest, key) == if e.key == key then Some(e.value) else Get(rest, key)
  {
    assert ([e] + rest)[1..] == rest;
  }

  /** `collection.set(key, value)`. */
  function Set<V(==)>(c: Coll<V>, key: string, value: V): (r: Coll<V>)
    requires UniqueKeys(c)
    ensures UniqueKeys(r)
    ensures Get(r, key) == Some(value)
    ensures forall k :: k != key ==> Get(r, k) == Get(c, k)
    ensures key in Keys(c) ==> Keys(r) == Keys(c)
    ensures key !in Keys(c) ==> Keys(r) == Keys(c) + [key]
  {
    if c == [] then [Entry(key, value)]
    else if c[0].key == key then
      var r := [Entry(key, value)] + c[1..];
      assert Keys(r) == Keys(c);
      assert forall k :: k != key ==> Get(r, k) == Get(c, k) by {
        forall k | k != key ensures Get(r, k) == Get(c, k) {
          GetCons(Entry(key, value), c[1..], k);
          GetCons(c[0], c[1..], k);
          assert c == [c[0]] + c[1..];
        }
      }
      r
    else
      var rest := Set(c[1..], key, value);
      SetCons(c, key, value, rest);
      [c[0]] + rest
  }

  /** Prepending an entry whose key is new keeps keys unique. */
  lemma UniqueCons<V>(e: Entry<V>, rest: Coll<V>)
    requires UniqueKeys(rest)
    requires e.key !in Keys(rest)
    ensures UniqueKeys([e] + rest)
  {
    var r := [e] + rest;
    forall i, j | 0 <= i < j < |r| ensures r[i].key != r[j].key {
      if i == 0 {
        assert r[j].key == Keys(rest)[j - 1];
      } else {
        assert r[i] == rest[i - 1] && r[j] == rest[j - 1];
      }
    }
  }

  /** The keys of a collection that starts with `e`. */
  lemma KeysCons<V>(e: Entry<V>, rest: Coll<V>)
    ensures Keys([e] + rest) == [e.key] + Keys(rest)
  {
  }

  /** The step case of `Set`: the first entry stays in front of the updated rest. */
  lemma SetCons<V>(c: Coll<V>, key: string, value: V, rest: Coll<V>)
    requires c != [] && c[0].key != key
    requires UniqueKeys(c)
    requires UniqueKeys(rest)
    requires Get(rest, key) == Some(value)
    requires forall k :: k != key ==> Get(rest, k) == Get(c[1..], k)
    requires key in Keys(c[1..]) ==> Keys(rest) == Keys(c[1..])
    requires key !in Keys(c[1..]) ==> Keys(rest) == Keys(c[1..]) + [key]
    ensures UniqueKeys([c[0]] + rest)
    ensures Get([c[0]] + rest, key) == Some(value)
    ensures forall k :: k != key ==> Get([c[0]] + rest, k) == Get(c, k)
    ensures key in Keys(c) ==> Keys([c[0]] + rest) == Keys(c)
    ensures key !in Keys(c) ==> Keys([c[0]] + rest) == Keys(c) + [key]
  {
    SetConsKeys(c, key, rest);
    SetConsUnique(c, key, rest);
    SetConsGet(c, key, value, rest);
  }

  /** Keys of the step case of `Set`. */
  lemma SetConsKeys<V>(c: Coll<V>, key: string, rest: Coll<V>)
    requires c != [] && c[0].key != key
    requires key in Keys(c[1..]) ==> Keys(rest) == Keys(c[1..])
    requires key !in Keys(c[1..]) ==> Keys(rest) == Keys(c[1..]) + [key]
    ensures key in Keys(c) <==> key in Keys(c[1..])
    ensures key in Keys(c) ==> Keys([c[0]] + rest) == Keys(c)
    ensures key !in Keys(c) ==> Keys([c[0]] + rest) == Keys(c) + [key]
  {
    assert c == [c[0]] + c[1..];
    KeysCons(c[0], c[1..]);
    KeysCons(c[0], rest);
  }

  /** Key uniqueness in the step case of `Set`. */
  lemma SetConsUnique<V>(c: Coll<V>, key: string, rest: Coll<V>)
    requires c != [] && c[0].key != key
    requires UniqueKeys(c)
    requires UniqueKeys(rest)
    requires key in Keys(c[1..]) ==> Keys(rest) == Keys(c[1..])
    requires key !in Keys(c[1..]) ==> Keys(rest) == Keys(c[1..]) + [key]
    ensures UniqueKeys([c[0]] + rest)
  {
    HeadKeyFresh(c);
    assert c[0].key !in Keys(rest);
    UniqueCons(c[0], rest);
  }

  /** Lookups in the step case of `Set`. */
  lemma SetConsGet<V>(c: Coll<V>, key: string, value: V, rest: Coll<V>)
    requires c != [] && c[0].key != key
    requires Get(rest, key) == Some(value)
    requires forall k :: k != key ==> Get(rest, k) == Get(c[1..], k)
    ensures Get([c[0]] + rest, key) == Some(value)
    ensures forall k :: k != key ==> Get([c[0]] + rest, k) == Get(c, k)
  {
    assert c == [c[0]] + c[1..];
    GetCons(c[0], rest, key);
    forall k | k != key ensures Get([c[0]] + rest, k) == Get(c, k) {
      GetCons(c[0], rest, k);
      GetCons(c[0], c[1..], k);
    }
  }

  /** In a map, the first key does not occur again. */
  lemma HeadKeyFresh<V>(c: Coll<V>)
    requires c != [] && UniqueKeys(c)
    ensures c[0].key !in Keys(c[1..])
  {
    forall j | 0 <= j < |c[1..]| ensures Keys(c[1..])[j] != c[0].key {
      assert c[1..][j] == c[j + 1];
    }
  }
}
