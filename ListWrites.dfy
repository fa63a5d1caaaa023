/**
 * Writing rows into one list: an upsert by identity stamps the row with the
 * current tick of the logical clock and replaces any row with that identity
 * (Classes/ARStoreDBManager.h:39-51).
 */
module ListWrites {
  import opened StoreRecords

  /** One row write: the record for `id` now holds `obj`, written at tick `tick`. */
  function Upsert<V>(list: map<string, Entry<V>>, id: string, obj: V, tick: nat): map<string, Entry<V>>
  {
    list[id := Entry(obj, tick)]
  }

  /**
   * A batch of row writes in order; the i-th item is written at tick `start + i`.
   */
  function UpsertAll<V>(list: map<string, Entry<V>>, items: seq<Item<V>>, start: nat): map<string, Entry<V>>
    decreases |items|
  {
    if items == [] then list
    else
      var last := items[|items| - 1];
      Upsert(UpsertAll(list, items[..|items| - 1], start), last.identity, last.obj, start + |items| - 1)
  }

  /** The last item of a batch adds its identity to those of the items before it. */
  lemma IdsSnoc<V>(items: seq<Item<V>>, item: Item<V>)
    ensures Ids(items + [item]) == Ids(items) + {item.identity}
  {
    var all := items + [item];
    assert forall i :: 0 <= i < |items| ==> all[i] == items[i];
    assert all[|items|] == item;
  }

  /** Appending an item with a new identity keeps a batch's identities distinct. */
  lemma AppendFresh<V>(items: seq<Item<V>>, item: Item<V>)
    requires DistinctIds(items) && item.identity !in Ids(items)
    ensures DistinctIds(items + [item])
    ensures Ids(items + [item]) == Ids(items) + {item.identity}
  {
    IdsSnoc(items, item);
    var all := items + [item];
    forall i, j | 0 <= i < j < |all|
      ensures all[i].identity != all[j].identity
    {
      assert all[i] == items[i];
      if j < |items| {
        assert all[j] == items[j];
      } else {
        assert items[i].identity in Ids(items);
      }
    }
  }

  /**
   * Upsert by identity never duplicates: after a batch the list holds exactly
   * the identities it held before plus those of the batch.
   */
  lemma {:induction false} UpsertAllKeys<V>(list: map<string, Entry<V>>, items: seq<Item<V>>, start: nat)
    ensures UpsertAll(list, items, start).Keys == list.Keys + Ids(items)
    decreases |items|
  {
    if items != [] {
      var init := items[..|items| - 1];
      assert items == init + [items[|items| - 1]];
      IdsSnoc(init, items[|items| - 1]);
      UpsertAllKeys(list, init, start);
    }
  }

  /** A record whose identity the batch does not carry is left as it was. */
  lemma {:induction false} UpsertAllUntouched<V>(list: map<string, Entry<V>>, items: seq<Item<V>>, start: nat, id: string)
    requires id in list && id !in Ids(items)
    ensures id in UpsertAll(list, items, start) && UpsertAll(list, items, start)[id] == list[id]
    decreases |items|
  {
    if items != [] {
      var init := items[..|items| - 1];
      assert items == init + [items[|items| - 1]];
      IdsSnoc(init, items[|items| - 1]);
      UpsertAllUntouched(list, init, start, id);
    }
  }

  /** Extending a batch by one item is one more row write, at the next tick. */
  lemma UpsertAllSnoc<V>(list: map<string, Entry<V>>, items: seq<Item<V>>, item: Item<V>, start: nat)
    ensures UpsertAll(list, items + [item], start) == Upsert(UpsertAll(list, items, start), item.identity, item.obj, start + |items|)
  {
    assert (items + [item])[..|items|] == items;
  }

  /** A writing step keeps a list well stamped once the clock moves past the new tick. */
  lemma UpsertStamped<V>(list: map<string, Entry<V>>, id: string, obj: V, clock: nat)
    requires Stamped(list, clock)
    ensures Stamped(Upsert(list, id, obj, clock), clock + 1)
  {
    var r := Upsert(list, id, obj, clock);
    forall a, b | a in r && b in r && a != b
      ensures r[a].createdTime != r[b].createdTime
    {
      if a != id && b != id {
        assert r[a] == list[a] && r[b] == list[b];
      }
    }
  }

  /** Advancing the clock keeps a list well stamped. */
  lemma StampedLater<V>(list: map<string, Entry<V>>, clock: nat, later: nat)
    requires Stamped(list, clock) && clock <= later
    ensures Stamped(list, later)
  {
  }

  /** A batch write leaves a well-stamped list well stamped, with the clock advanced by one tick per item. */
  lemma {:induction false} UpsertAllStamped<V>(list: map<string, Entry<V>>, items: seq<Item<V>>, start: nat)
    requires Stamped(list, start)
    ensures Stamped(UpsertAll(list, items, start), start + |items|)
    decreases |items|
  {
    if items != [] {
      var init := items[..|items| - 1];
      var last := items[|items| - 1];
      UpsertAllStamped(list, init, start);
      UpsertStamped(UpsertAll(list, init, start), last.identity, last.obj, start + |init|);
    }
  }

  /**
   * The record for an identity holds the object of the LAST item that carries
   * it, stamped with that item's tick: a later write of the same identity wins.
   */
  lemma {:induction false} UpsertAllLatest<V>(list: map<string, Entry<V>>, items: seq<Item<V>>, start: nat, i: nat)
    requires i < |items|
    requires forall j :: i < j < |items| ==> items[j].identity != items[i].identity
    ensures items[i].identity in UpsertAll(list, items, start)
    ensures UpsertAll(list, items, start)[items[i].identity] == Entry(items[i].obj, start + i)
    decreases |items|
  {
    if i < |items| - 1 {
      var init := items[..|items| - 1];
      assert init[i] == items[i];
      UpsertAllLatest(list, init, start, i);
    }
  }

  /**
   * A batch whose identities are pairwise distinct stores every item as given:
   * the dictionary case, where identities are the dictionary's keys.
   */
  lemma UpsertAllDistinct<V>(list: map<string, Entry<V>>, items: seq<Item<V>>, start: nat)
    requires DistinctIds(items)
    ensures forall i :: 0 <= i < |items| ==>
      items[i].identity in UpsertAll(list, items, start) &&
      UpsertAll(list, items, start)[items[i].identity] == Entry(items[i].obj, start + i)
  {
    forall i | 0 <= i < |items|
      ensures items[i].identity in UpsertAll(list, items, start)
      ensures UpsertAll(list, items, start)[items[i].identity] == Entry(items[i].obj, start + i)
    {
      UpsertAllLatest(list, items, start, i);
    }
  }

  /** Writing the same identity twice keeps one record, holding the second object. */
  lemma {:induction false} UpsertTwiceOverwrites<V>(list: map<string, Entry<V>>, id: string, first: V, second: V, start: nat)
    ensures UpsertAll(list, [Item(id, first), Item(id, second)], start).Keys == list.Keys + {id}
    ensures UpsertAll(list, [Item(id, first), Item(id, second)], start)[id] == Entry(second, start + 1)
  {
    var items := [Item(id, first), Item(id, second)];
    assert Ids(items) == {id} by {
      assert items[0].identity == id && items[1].identity == id;
    }
    UpsertAllKeys(list, items, start);
    UpsertAllLatest(list, items, start, 1);
  }

  /** The identities named by a sequence, as a set. */
  function Named(ids: seq<string>): set<string> {
    set i | 0 <= i < |ids| :: ids[i]
  }

  lemma NamedSnoc(front: seq<string>, last: string)
    ensures Named(front + [last]) == Named(front) + {last}
  {
    var ids := front + [last];
    forall x | x in Named(ids) ensures x in Named(front) + {last} {
      var k :| 0 <= k < |ids| && ids[k] == x;
      if k < |front| {
        assert front[k] == x;
      }
    }
    forall x | x in Named(front) ensures x in Named(ids) {
      var k :| 0 <= k < |front| && front[k] == x;
      assert ids[k] == x;
    }
    assert ids[|front|] == last;
  }

  /** Deleting n distinct present identities from a set of keys leaves n fewer. */
  lemma {:induction false} RemoveNamedCount(keys: set<string>, ids: seq<string>)
    requires forall i :: 0 <= i < |ids| ==> ids[i] in keys
    requires forall i, j :: 0 <= i < j < |ids| ==> ids[i] != ids[j]
    ensures |keys - Named(ids)| == |keys| - |ids|
  {
    if ids == [] {
      assert keys - Named(ids) == keys;
    } else {
      var front := ids[..|ids| - 1];
      var last := ids[|ids| - 1];
      assert ids == front + [last];
      NamedSnoc(front, last);
      RemoveNamedCount(keys, front);
      forall k | 0 <= k < |front| ensures front[k] != last {
        assert front[k] == ids[k];
      }
      assert last in keys - Named(front);
      assert keys - Named(ids) == (keys - Named(front)) - {last};
    }
  }

  /** Deleting n distinct present identities leaves n records fewer. */
  lemma RemoveAllCount<V>(list: map<string, Entry<V>>, ids: seq<string>)
    requires forall i :: 0 <= i < |ids| ==> ids[i] in list
    requires forall i, j :: 0 <= i < j < |ids| ==> ids[i] != ids[j]
    ensures |list - Named(ids)| == |list| - |ids|
  {
    RemoveNamedCount(list.Keys, ids);
    assert (list - Named(ids)).Keys == list.Keys - Named(ids);
  }
}
