/** The two sides of the catalog server: the heartbeat callback and the gathering thread,
    be/src/catalog/catalog-server.cc, lines 166-296.
 */
module CatalogServer {
  import opened CatalogTopic

  datatype Response = Ok(snapshot: Snapshot) | Failed

  /** What is in the catalog objects after a gather: the old ones if it failed. */
  function Kept(response: Response, objects: Snapshot): Snapshot {
    if response.Ok? then response.snapshot else objects
  }

  const EMPTY := Snapshot([], 0)

  lemma OneMore(objects: seq<Object>, i: nat, lastSent: nat)
    requires i < |objects|
    ensures KeysOf(objects[..i + 1]) == KeysOf(objects[..i]) + {objects[i].key}
    ensures Updates(objects[..i + 1], lastSent) ==
            if objects[i].version > lastSent then
              Updates(objects[..i], lastSent) + [Update(objects[i].key, objects[i].value)]
            else Updates(objects[..i], lastSent)
  {
    var upTo := objects[..i + 1];
    assert upTo[..i] == objects[..i];
    assert forall o :: o in upTo <==> o in objects[..i] || o == objects[i];
  }

  class Server {
    var objects: Snapshot           // *catalog_objects_
    var ready: bool                 // catalog_objects_ready_
    var lastSent: nat               // last_sent_catalog_version_
    var fromVersion: nat            // catalog_objects_from_version_
    var keys: set<Key>              // catalog_object_topic_entry_keys_

    constructor ()
      ensures !ready && lastSent == 0 && keys == {}
    {
      objects, ready, lastSent, fromVersion, keys := EMPTY, false, 0, 0, {};
    }

    /** A heartbeat.  `full` says that the topic is at version 0, i.e. that the statestore knows
        nothing; `locked` that the lock could be taken. */
    method UpdateCatalogTopicCallback(full: bool, locked: bool) returns (items: seq<Item>)
      modifies this
      ensures !locked || !old(ready) ==> items == [] && unchanged(this)
      ensures locked && old(ready) ==>
                var clear := full && old(fromVersion) != 0;
                && objects == (if clear then EMPTY else old(objects))
                && DeltaOf(objects, if clear then {} else old(keys), old(lastSent), items)
                && keys == KeysOf(objects.objects) && lastSent == objects.maxVersion
                && !ready && fromVersion == old(fromVersion)
    {
      items := [];
      if !locked || !ready {
        return;
      }
      if full && fromVersion != 0 {
        keys := {};
        objects := EMPTY;
      }
      var current;
      items, current := UpdateItems();
      var deletions := DeletionItems();
      items := items + deletions;
      keys := current;
      lastSent := objects.maxVersion;
      ready := false;
    }

    /** One update for every newer object; the keys of all objects are erased from the known ones. */
    method UpdateItems() returns (items: seq<Item>, current: set<Key>)
      modifies this`keys
      ensures items == Updates(objects.objects, lastSent)
      ensures current == KeysOf(objects.objects) && keys == old(keys) - current
    {
      items, current := [], {};
      for i := 0 to |objects.objects|
        invariant current == KeysOf(objects.objects[..i]) && keys == old(keys) - current
        invariant items == Updates(objects.objects[..i], lastSent)
      {
        var o := objects.objects[i];
        OneMore(objects.objects, i, lastSent);
        current := current + {o.key};
        if o.key in keys {
          keys := keys - {o.key};
        }
        if o.version > lastSent {
          items := items + [Update(o.key, o.value)];
        }
      }
      assert objects.objects[..|objects.objects|] == objects.objects;
    }

    /** One deletion for every key that is left over. */
    method DeletionItems() returns (items: seq<Item>)
      ensures exists gone :: Enumerates(gone, keys) && items == Deletes(gone)
    {
      var left := keys;
      ghost var gone: seq<Key> := [];
      items := [];
      while left != {}
        invariant left <= keys && Enumerates(gone, keys - left) && items == Deletes(gone)
        decreases left
      {
        var key :| key in left;
        left := left - {key};
        items := items + [Delete(key)];
        ghost var more := gone + [key];
        assert more[..|more| - 1] == gone;
        gone := more;
      }
    }

    /** The gathering thread, from its wake-up on, holding the lock. */
    method Gather(response: Response)
      modifies this
      ensures old(ready) ==> unchanged(this)
      ensures !old(ready) ==>
                && ready && fromVersion == old(lastSent) && lastSent == old(lastSent) && keys == old(keys)
                && objects == Kept(response, old(objects))
    {
      if ready {
        return;
      }
      if response.Ok? {
        objects := response.snapshot;
      }
      fromVersion := lastSent;
      ready := true;
    }
  }
}
