/** The catalog's history, the snapshots gathered from it, and the deltas that keep the
    statestore topic up to date: be/src/catalog/catalog-server.cc, lines 181-266, and the
    contract of GetAllCatalogObjects in be/src/catalog/catalog.h, lines 51-56.
 */
module CatalogTopic {

  /** A topic entry key, as CatalogKeys builds it. */
  datatype Key = Key(text: string)
  type Value = int

  datatype Entry = Entry(version: nat, value: Value)

  type Catalog = map<Key, Entry>

  type Topic = map<Key, Value>

  /** log[v] is the catalog as of version v; version 0 is the empty catalog.  A version may change
      any number of entries, and gives the changed ones its own number. */
  ghost predicate History(log: seq<Catalog>) {
    && log != [] && log[0] == map[]
    && forall v :: 0 < v < |log| ==> Evolves(log[v - 1], log[v], v)
  }

  ghost predicate Evolves(before: Catalog, after: Catalog, version: nat) {
    forall k :: k in after ==> after[k].version == version || (k in before && after[k] == before[k])
  }

  /** The topic that holds the catalog as of version v. */
  ghost function TopicAt(log: seq<Catalog>, v: nat): Topic
    requires v < |log|
  {
    map k | k in log[v] :: log[v][k].value
  }

  /** An entry has been as it is since its version, which is positive. */
  lemma {:induction false} Unchanged(log: seq<Catalog>, u: nat, v: nat, k: Key)
    requires History(log) && u <= v < |log| && k in log[v]
    ensures 0 < log[v][k].version <= v
    ensures log[v][k].version <= u ==> k in log[u] && log[u][k] == log[v][k]
    decreases v
  {
    if u < v {
      assert Evolves(log[v - 1], log[v], v);
      if log[v][k].version != v {
        Unchanged(log, u, v - 1, k);
      }
    } else if v > 0 {
      assert Evolves(log[v - 1], log[v], v);
      if log[v][k].version != v {
        Unchanged(log, v - 1, v - 1, k);
      }
    }
  }

  // ----- snapshots -----

  datatype Object = Object(key: Key, version: nat, value: Value)

  datatype Snapshot = Snapshot(objects: seq<Object>, maxVersion: nat)

  function KeysOf(objects: seq<Object>): set<Key> {
    set o | o in objects :: o.key
  }

  /** A response to GetAllCatalogObjects(from): all names that exist, and the metadata of what was
      modified after `from`.  Older objects may come without metadata and without their version. */
  ghost predicate Gathered(log: seq<Catalog>, from: nat, s: Snapshot) {
    && from <= s.maxVersion < |log|
    && var c := log[s.maxVersion];
       && KeysOf(s.objects) == c.Keys
       && DistinctKeys(s.objects)
       && (forall o :: o in s.objects ==>
             && o.key in c
             && if c[o.key].version > from then o.version == c[o.key].version && o.value == c[o.key].value
                else o.version <= from)
  }

  // ----- deltas -----

  /** A topic item; an item without a value deletes its key. */
  datatype Item = Update(key: Key, value: Value) | Delete(key: Key)

  function ApplyItem(topic: Topic, item: Item): Topic {
    match item
    case Update(k, v) => topic[k := v]
    case Delete(k) => topic - {k}
  }

  function Apply(topic: Topic, items: seq<Item>): Topic
    decreases |items|
  {
    if items == [] then topic
    else ApplyItem(Apply(topic, items[..|items| - 1]), items[|items| - 1])
  }

  /** The updates for the objects that are newer than what was sent last. */
  function Updates(objects: seq<Object>, lastSent: nat): seq<Item>
    decreases |objects|
  {
    if objects == [] then []
    else
      var o, rest := objects[|objects| - 1], Updates(objects[..|objects| - 1], lastSent);
      if o.version > lastSent then rest + [Update(o.key, o.value)] else rest
  }

  function Deletes(keys: seq<Key>): seq<Item>
    decreases |keys|
  {
    if keys == [] then [] else Deletes(keys[..|keys| - 1]) + [Delete(keys[|keys| - 1])]
  }

  /** items tells a subscriber that knows `keys` as of version lastSent about snapshot s: first the
      updates, then the deletions in some order. */
  ghost predicate DeltaOf(s: Snapshot, keys: set<Key>, lastSent: nat, items: seq<Item>) {
    exists gone: seq<Key> :: Enumerates(gone, keys - KeysOf(s.objects))
                             && items == Updates(s.objects, lastSent) + Deletes(gone)
  }

  ghost predicate Enumerates(s: seq<Key>, keys: set<Key>) {
    forall k :: k in s <==> k in keys
  }

  // ----- applying a delta -----

  lemma {:induction false} ApplyConcat(topic: Topic, a: seq<Item>, b: seq<Item>)
    ensures Apply(topic, a + b) == Apply(Apply(topic, a), b)
    decreases |b|
  {
    if b == [] {
      assert a + b == a;
    } else {
      var last := |b| - 1;
      assert (a + b)[..|a + b| - 1] == a + b[..last];
      ApplyConcat(topic, a, b[..last]);
    }
  }

  lemma ApplyLast(topic: Topic, items: seq<Item>, item: Item)
    ensures Apply(topic, items + [item]) == ApplyItem(Apply(topic, items), item)
  {
    assert (items + [item])[..|items|] == items;
  }

  lemma {:induction false} ApplyDeletes(topic: Topic, gone: seq<Key>)
    ensures Apply(topic, Deletes(gone)) == topic - (set k | k in gone)
    decreases |gone|
  {
    if gone == [] {
    } else {
      var last := |gone| - 1;
      ApplyDeletes(topic, gone[..last]);
      ApplyLast(topic, Deletes(gone[..last]), Delete(gone[last]));
      assert gone == gone[..last] + [gone[last]];
    }
  }

  /** The same updates as a map. */
  function UpdateMap(objects: seq<Object>, lastSent: nat): map<Key, Value>
    decreases |objects|
  {
    if objects == [] then map[]
    else
      var o, rest := objects[|objects| - 1], UpdateMap(objects[..|objects| - 1], lastSent);
      if o.version > lastSent then rest[o.key := o.value] else rest
  }

  lemma {:induction false} ApplyUpdates(topic: Topic, objects: seq<Object>, lastSent: nat)
    ensures Apply(topic, Updates(objects, lastSent)) == topic + UpdateMap(objects, lastSent)
    decreases |objects|
  {
    if objects == [] {
      assert topic + map[] == topic;
    } else {
      var o, rest := objects[|objects| - 1], objects[..|objects| - 1];
      ApplyUpdates(topic, rest, lastSent);
      if o.version > lastSent {
        ApplyLast(topic, Updates(rest, lastSent), Update(o.key, o.value));
        UnionUpdate(topic, UpdateMap(rest, lastSent), o.key, o.value);
      }
    }
  }

  lemma UnionUpdate(a: Topic, b: Topic, k: Key, v: Value)
    ensures a + b[k := v] == (a + b)[k := v]
  {
  }

  predicate DistinctKeys(objects: seq<Object>) {
    forall i, j :: 0 <= i < j < |objects| ==> objects[i].key != objects[j].key
  }

  /** An object is in the update map exactly if it is newer. */
  lemma {:induction false} InUpdateMap(objects: seq<Object>, lastSent: nat, i: nat)
    requires DistinctKeys(objects) && i < |objects|
    ensures objects[i].key in UpdateMap(objects, lastSent) <==> objects[i].version > lastSent
    ensures objects[i].version > lastSent ==> UpdateMap(objects, lastSent)[objects[i].key] == objects[i].value
    decreases |objects|
  {
    var rest := objects[..|objects| - 1];
    if i < |rest| {
      assert rest[i] == objects[i];
      InUpdateMap(rest, lastSent, i);
    } else {
      UpdateMapKeys(rest, lastSent, objects[i].key);
    }
  }

  lemma {:induction false} UpdateMapKeys(objects: seq<Object>, lastSent: nat, k: Key)
    requires forall i :: 0 <= i < |objects| ==> objects[i].key != k
    ensures k !in UpdateMap(objects, lastSent)
    decreases |objects|
  {
    if objects == [] {
    } else {
      UpdateMapKeys(objects[..|objects| - 1], lastSent, k);
    }
  }

  /** What the update map says about one key, in terms of the history. */
  lemma UpdateMapAt(log: seq<Catalog>, from: nat, s: Snapshot, lastSent: nat, k: Key)
    requires History(log) && Gathered(log, from, s) && lastSent <= s.maxVersion
    requires from == lastSent || s.maxVersion == lastSent
    ensures var m := UpdateMap(s.objects, lastSent);
            && (k in m ==> k in log[s.maxVersion] && m[k] == log[s.maxVersion][k].value)
            && (k in log[s.maxVersion] && k !in m ==> k in log[lastSent] && log[lastSent][k] == log[s.maxVersion][k])
  {
    if k in KeysOf(s.objects) {
      var o :| o in s.objects && o.key == k;
      var i :| 0 <= i < |s.objects| && s.objects[i] == o;
      InUpdateMap(s.objects, lastSent, i);
      Unchanged(log, lastSent, s.maxVersion, k);
    } else {
      UpdateMapKeys(s.objects, lastSent, k);
    }
  }

  /** The delta of a snapshot brings a topic from the version sent last to the snapshot's version. */
  lemma DeltaCatchesUp(log: seq<Catalog>, from: nat, s: Snapshot, lastSent: nat, items: seq<Item>)
    requires History(log) && Gathered(log, from, s) && lastSent <= s.maxVersion
    requires from == lastSent || s.maxVersion == lastSent
    requires DeltaOf(s, log[lastSent].Keys, lastSent, items)
    ensures Apply(TopicAt(log, lastSent), items) == TopicAt(log, s.maxVersion)
  {
    var topic, m := TopicAt(log, lastSent), UpdateMap(s.objects, lastSent);
    var gone: seq<Key> :| Enumerates(gone, log[lastSent].Keys - KeysOf(s.objects))
                          && items == Updates(s.objects, lastSent) + Deletes(gone);
    ApplyConcat(topic, Updates(s.objects, lastSent), Deletes(gone));
    ApplyUpdates(topic, s.objects, lastSent);
    ApplyDeletes(topic + m, gone);
    assert Apply(topic, items) == (topic + m) - (set k | k in gone);
    CaughtUp(log, from, s, lastSent, gone);
  }

  lemma CaughtUp(log: seq<Catalog>, from: nat, s: Snapshot, lastSent: nat, gone: seq<Key>)
    requires History(log) && Gathered(log, from, s) && lastSent <= s.maxVersion
    requires from == lastSent || s.maxVersion == lastSent
    requires Enumerates(gone, log[lastSent].Keys - KeysOf(s.objects))
    ensures TopicAt(log, lastSent) + UpdateMap(s.objects, lastSent) - (set k | k in gone) == TopicAt(log, s.maxVersion)
  {
    var result := TopicAt(log, lastSent) + UpdateMap(s.objects, lastSent) - (set k | k in gone);
    var after := TopicAt(log, s.maxVersion);
    forall k ensures (k in result <==> k in after) && (k in after ==> k in result && result[k] == after[k]) {
      UpdateMapAt(log, from, s, lastSent, k);
    }
    assert result.Keys == after.Keys;
  }
}
