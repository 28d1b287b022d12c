/**
  Properties of the item store: which handlers keep ids unique, how reads
  observe the writes before them, and the update quirk that lets a record
  with a foreign id into the store.
 */
module ItemStoreProps {
  import opened Wrappers
  import opened ItemStore

  /** On a store with unique ids, reading `id` finds exactly the stored item carrying `id`. */
  lemma ReadItemIsMembership(s: Store, id: int, x: Item)
    requires UniqueIds(s)
    ensures ReadItem(s, id) == Ok(x) <==> x in s && x.id == id
  {
  }

  /** Creation never introduces a duplicate id, whether it succeeds or fails. */
  lemma CreatePreservesUnique(s: Store, item: Item)
    requires UniqueIds(s)
    ensures UniqueIds(CreateItem(s, item).store)
  {
  }

  /** Deletion never introduces a duplicate id. */
  lemma DeletePreservesUnique(s: Store, id: int)
    requires UniqueIds(s)
    ensures UniqueIds(DeleteItem(s, id).store)
  {
  }

  /**
    On a unique store, an update of a present id keeps ids unique exactly
    when the new record keeps the path id or brings an id nobody uses.
   */
  lemma UpdateUniqueIff(s: Store, id: int, item: Item)
    requires UniqueIds(s) && Contains(s, id)
    ensures UniqueIds(UpdateItem(s, id, item).store) <==> item.id == id || !Contains(s, item.id)
  {
  }

  /** Two creates with the same id, from an empty store: the second is refused and only the first is listed. */
  lemma CreateDuplicateExample()
    ensures var first := Item(1, "a", None, 2.5);
            var second := Item(1, "b", None, 3.0);
            var s := CreateItem([], first);
            var t := CreateItem(s.store, second);
            && s.result == Ok(first)
            && t.result == Err(Conflict)
            && ReadItems(t.store) == [first]
  {
  }

  /** The update quirk on concrete data: two distinct ids, and an update of id 1 with a record carrying id 2. */
  lemma UpdateCanDuplicateIds()
    ensures var a := Item(1, "a", None, 1.0);
            var b := Item(2, "b", None, 2.0);
            var c := Item(2, "c", None, 3.0);
            && UniqueIds([a, b])
            && UpdateItem([a, b], 1, c) == Step([c, b], Ok(c))
            && !UniqueIds([c, b])
  {
    var a := Item(1, "a", None, 1.0);
    var b := Item(2, "b", None, 2.0);
    var c := Item(2, "c", None, 3.0);
    assert IsFirst([a, b], 1, 0);
    assert [c, b][0].id == [c, b][1].id;
  }

  /** After updating a present id with a record that keeps that id, reading the id returns the record. */
  lemma UpdateThenRead(s: Store, id: int, item: Item)
    requires Contains(s, id) && item.id == id
    ensures ReadItem(UpdateItem(s, id, item).store, id) == Ok(item)
  {
  }

  /**
    After updating a present id of a unique store with a record carrying a
    different id, the path id is gone: reading it fails with NotFound.
   */
  lemma UpdateForeignIdThenRead(s: Store, id: int, item: Item)
    requires UniqueIds(s) && Contains(s, id) && item.id != id
    ensures ReadItem(UpdateItem(s, id, item).store, id) == Err(NotFound)
  {
  }

  /** After deleting a present id of a unique store, reading the id fails and one item fewer remains. */
  lemma DeleteThenRead(s: Store, id: int)
    requires UniqueIds(s) && Contains(s, id)
    ensures ReadItem(DeleteItem(s, id).store, id) == Err(NotFound)
    ensures |DeleteItem(s, id).store| == |s| - 1
  {
  }

  /**
    Creating items with pairwise distinct ids, none of them already stored,
    appends them all in creation order; listing then returns exactly them.
    The store they are created in may itself hold duplicate ids.
   */
  lemma {:induction false} CreateAllAppends(s: Store, items: seq<Item>)
    requires UniqueIds(items)
    requires forall i :: 0 <= i < |items| ==> !Contains(s, items[i].id)
    ensures CreateAll(s, items) == s + items
    ensures ReadItems(CreateAll(s, items)) == s + items
    decreases |items|
  {
    if |items| > 0 {
      var x := items[0];
      var t := CreateItem(s, x).store;
      assert t == s + [x];
      forall i | 0 <= i < |items[1..]|
        ensures !Contains(t, items[1..][i].id)
      {
        assert items[1..][i] == items[i + 1];
        assert items[0].id != items[i + 1].id;
        assert !Contains(s, items[i + 1].id);
      }
      assert t + items[1..] == s + items;
      CreateAllAppends(t, items[1..]);
    }
  }

  /** An update whose payload keeps the path id. */
  predicate KeepsId(req: Request)
  {
    req.Update? ==> req.item.id == req.id
  }

  /** Serving one request keeps ids unique, unless it is an update carrying a foreign id. */
  lemma HandlePreservesUnique(s: Store, req: Request)
    requires UniqueIds(s) && KeepsId(req)
    ensures UniqueIds(Handle(s, req).store)
  {
  }

  /** Any run of requests whose updates all keep their path id keeps ids unique. */
  lemma {:induction false} RunPreservesUnique(s: Store, reqs: seq<Request>)
    requires UniqueIds(s)
    requires forall i :: 0 <= i < |reqs| ==> KeepsId(reqs[i])
    ensures UniqueIds(Run(s, reqs))
    decreases |reqs|
  {
    if |reqs| > 0 {
      HandlePreservesUnique(s, reqs[0]);
      RunPreservesUnique(Handle(s, reqs[0]).store, reqs[1..]);
    }
  }
}
