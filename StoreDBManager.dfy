/**
 * ARStoreDBManager: a persistent store with a single-value slot per key and
 * named lists of records keyed by identity (Classes/ARStoreDBManager.h:25-82).
 * The database is modelled by two maps and a logical clock that stamps every
 * row write.
 */
module StoreDB {
  import opened Wrappers
  import opened StoreRecords
  import opened ListWrites
  import opened ListReads

  class StoreDBManager<V> {
    /** The single-value table: at most one object per key. */
    var values: map<string, V>
    /** The list tables: list name to (identity to record). */
    var lists: map<string, map<string, Entry<V>>>
    /** The tick the next row write is stamped with. */
    var clock: nat

    /** Every list is well stamped against the clock. */
    ghost predicate Valid()
      reads this
    {
      forall key :: key in lists ==> Stamped(lists[key], clock)
    }

    constructor ()
      ensures Valid()
      ensures values == map[] && lists == map[] && clock == 0
    {
      values, lists, clock := map[], map[], 0;
    }

    /** The records of list `key`; a list never written reads as empty. */
    function ListOf(key: string): map<string, Entry<V>>
      reads this
    {
      if key in lists then lists[key] else map[]
    }

    /**
     * storeWithKey:object: a non-nil object replaces whatever the slot held,
     * nil clears the slot; no other slot and no list changes.
     */
    method StoreWithKey(key: string, obj: Option<V>) returns (ok: bool)
      requires Valid()
      modifies this
      ensures Valid() && ok
      ensures obj.Some? ==> key in values && values[key] == obj.value
      ensures obj.None? ==> key !in values
      ensures forall other :: other != key ==> (other in values <==> other in old(values))
      ensures forall other :: other != key && other in values ==> values[other] == old(values)[other]
      ensures lists == old(lists) && clock == old(clock)
    {
      match obj {
        case Some(v) => values := values[key := v];
        case None => values := values - {key};
      }
      ok := true;
    }

    /**
     * setObjectWithKey:object:identityKey: the list is created if it does not
     * exist, then the input is written record by record in the order reported
     * as `written`, each at the next tick. A scalar or an array stops at the
     * first object without an identity and reports failure; the objects before
     * it stay written. A dictionary writes every entry under its own key, in
     * an order the dictionary does not fix.
     */
    method SetObjectWithKey(key: string, obj: Shape<V>, extractIdentity: V -> Option<string>)
      returns (ok: bool, ghost written: seq<Item<V>>)
      requires Valid()
      modifies this
      ensures Valid()
      ensures values == old(values)
      ensures lists == old(lists)[key := UpsertAll(old(ListOf(key)), written, old(clock))]
      ensures clock == old(clock) + |written|
      ensures !obj.Keyed? ==> written == IdentifyPrefix(Elements(obj), extractIdentity)
      ensures !obj.Keyed? ==> (ok <==> forall i :: 0 <= i < |Elements(obj)| ==> extractIdentity(Elements(obj)[i]).Some?)
      ensures obj.Keyed? ==> ok && DistinctIds(written) && Ids(written) == obj.entries.Keys
      ensures obj.Keyed? ==> forall id :: id in obj.entries ==> id in lists[key] && lists[key][id].obj == obj.entries[id]
      ensures ObjectCountWithKey(key) == |old(ListOf(key)).Keys + Ids(written)|
    {
      var list: map<string, Entry<V>>, tick: nat;
      if obj.Keyed? {
        list, tick, written := WriteEntries(ListOf(key), clock, obj.entries);
        ok := true;
        UpsertAllDistinct(ListOf(key), written, clock);
        forall id | id in obj.entries
          ensures id in list && list[id].obj == obj.entries[id]
        {
          var j :| 0 <= j < |written| && written[j].identity == id;
        }
      } else {
        ok, list, tick, written := WriteObjects(ListOf(key), clock, Elements(obj), extractIdentity);
      }
      UpsertAllKeys(ListOf(key), written, clock);
      Commit(key, list, tick, written);
    }

    /** Stores the list a batch produced and moves the clock past the batch's last tick. */
    method Commit(key: string, list: map<string, Entry<V>>, tick: nat, ghost written: seq<Item<V>>)
      requires Valid()
      requires list == UpsertAll(ListOf(key), written, clock) && tick == clock + |written|
      modifies this
      ensures Valid() && values == old(values)
      ensures lists == old(lists)[key := list] && clock == tick
    {
      UpsertAllStamped(ListOf(key), written, clock);
      forall k | k in lists && k != key
        ensures Stamped(lists[k], tick)
      {
        StampedLater(lists[k], clock, tick);
      }
      lists := lists[key := list];
      clock := tick;
    }

    /**
     * The dictionary case: every entry is written under its own key, one tick
     * each, in some order; returns the new list and the next free tick.
     */
    static method WriteEntries(start: map<string, Entry<V>>, clock: nat, entries: map<string, V>)
      returns (list: map<string, Entry<V>>, tick: nat, ghost written: seq<Item<V>>)
      ensures list == UpsertAll(start, written, clock) && tick == clock + |written|
      ensures DistinctIds(written) && Ids(written) == entries.Keys
      ensures forall j :: 0 <= j < |written| ==>
        written[j].identity in entries && written[j].obj == entries[written[j].identity]
    {
      list, tick, written := start, clock, [];
      var rest := entries.Keys;
      while rest != {}
        invariant rest <= entries.Keys
        invariant list == UpsertAll(start, written, clock) && tick == clock + |written|
        invariant DistinctIds(written) && Ids(written) == entries.Keys - rest
        invariant forall j :: 0 <= j < |written| ==>
          written[j].identity in entries && written[j].obj == entries[written[j].identity]
        decreases rest
      {
        var id :| id in rest;
        var item := Item(id, entries[id]);
        UpsertAllSnoc(start, written, item, clock);
        AppendFresh(written, item);
        assert forall j :: 0 <= j < |written| ==> (written + [item])[j] == written[j];
        list, tick := Upsert(list, id, entries[id], tick), tick + 1;
        written := written + [item];
        rest := rest - {id};
      }
    }

    /**
     * The scalar and array case: objects are written front to back, one tick
     * each, and the write stops, reporting failure, at the first object
     * without an identity; returns the new list and the next free tick.
     */
    static method WriteObjects(start: map<string, Entry<V>>, clock: nat, objs: seq<V>, extractIdentity: V -> Option<string>)
      returns (ok: bool, list: map<string, Entry<V>>, tick: nat, ghost written: seq<Item<V>>)
      ensures list == UpsertAll(start, written, clock) && tick == clock + |written|
      ensures written == IdentifyPrefix(objs, extractIdentity)
      ensures ok <==> forall i :: 0 <= i < |objs| ==> extractIdentity(objs[i]).Some?
    {
      list, tick, written := start, clock, [];
      var i := 0;
      while i < |objs| && extractIdentity(objs[i]).Some?
        invariant i <= |objs|
        invariant list == UpsertAll(start, written, clock) && tick == clock + |written|
        invariant |written| == i
        invariant forall j :: 0 <= j < i ==> written[j].obj == objs[j]
        invariant forall j :: 0 <= j < i ==> extractIdentity(objs[j]) == Some(written[j].identity)
      {
        var item := Item(extractIdentity(objs[i]).value, objs[i]);
        UpsertAllSnoc(start, written, item, clock);
        list, tick := Upsert(list, item.identity, item.obj, tick), tick + 1;
        written := written + [item];
        i := i + 1;
      }
      ok := i == |objs|;
      IdentifyPrefixComplete(objs, extractIdentity);
      IdentifyPrefixUnique(objs, extractIdentity, written);
    }

    /**
     * removeWithKey:identities: fails and changes nothing when list `key`
     * does not exist; an empty (or nil) identity array clears the list;
     * otherwise every listed identity the list holds is removed, and the
     * result reports whether each listed identity was still there when its
     * turn came, that is, whether they were all present and none repeated.
     */
    method RemoveWithKey(key: string, identities: seq<string>) returns (ok: bool)
      requires Valid()
      modifies this
      ensures Valid()
      ensures values == old(values) && clock == old(clock)
      ensures key !in old(lists) ==> !ok && lists == old(lists)
      ensures key in old(lists) && identities == [] ==> ok && lists == old(lists)[key := map[]]
      ensures key in old(lists) && identities != [] ==>
        && lists == old(lists)[key := old(lists)[key] - Named(identities)]
        && (ok <==> ((forall i :: 0 <= i < |identities| ==> identities[i] in old(lists)[key])
                     && (forall i, j :: 0 <= i < j < |identities| ==> identities[i] != identities[j])))
      ensures key in old(lists) && identities == [] ==> ObjectCountWithKey(key) == 0
      ensures ok && identities != [] ==> ObjectCountWithKey(key) == old(ObjectCountWithKey(key)) - |identities|
    {
      if key !in lists {
        return false;
      }
      if identities == [] {
        lists := lists[key := map[]];
        return true;
      }
      var list;
      list, ok := RemoveEach(lists[key], identities);
      lists := lists[key := list];
    }

    /**
     * Deletes the listed identities one at a time; the result is false as soon
     * as one of them is not (or no longer) in the list, and the rest are still
     * deleted.
     */
    static method RemoveEach(start: map<string, Entry<V>>, identities: seq<string>)
      returns (list: map<string, Entry<V>>, ok: bool)
      ensures list == start - Named(identities)
      ensures ok <==> ((forall i :: 0 <= i < |identities| ==> identities[i] in start)
                       && (forall i, j :: 0 <= i < j < |identities| ==> identities[i] != identities[j]))
      ensures ok ==> |list| == |start| - |identities|
    {
      list, ok := start, true;
      for n := 0 to |identities|
        invariant list == start - (set i | 0 <= i < n :: identities[i])
        invariant ok <==> ((forall i :: 0 <= i < n ==> identities[i] in start)
                           && (forall i, j :: 0 <= i < j < n ==> identities[i] != identities[j]))
      {
        if identities[n] in list {
          list := list - {identities[n]};
        } else {
          ok := false;
        }
      }
      if ok {
        RemoveAllCount(start, identities);
      }
    }

    /** objectCountWithKey: the number of records a full read of list `key` returns; 0 for a list never written. */
    function ObjectCountWithKey(key: string): (n: nat)
      reads this
      requires Valid()
      ensures key !in lists ==> n == 0
      ensures n == |ObjectWithKey(key, 0, 0, OrderedAscending)|
    {
      |ListOf(key)|
    }

    /**
     * objectWithKey:pageIndex:pageSize:dateOrder: the records of list `key`
     * ordered by creation time (newest first for OrderedDescending, oldest
     * first otherwise), cut to the page that starts at pageIndex * pageSize;
     * pageSize 0 returns every record.
     */
    function ObjectWithKey(key: string, pageIndex: nat, pageSize: nat, dateOrder: DateOrder): (r: seq<Record<V>>)
      reads this
      requires Valid()
      ensures forall i :: 0 <= i < |r| ==> Holds(ListOf(key), r[i])
      ensures forall i, j :: 0 <= i < j < |r| ==>
        Before(r[i].createdTime, r[j].createdTime, dateOrder == OrderedDescending)
      ensures pageSize == 0 ==> |r| == |ListOf(key)| && Identities(r) == ListOf(key).Keys
      ensures pageSize > 0 ==> |r| <= pageSize
      ensures pageSize > 0 && pageIndex * pageSize >= |ListOf(key)| ==> r == []
    {
      var rows := InDateOrder(ListOf(key), dateOrder == OrderedDescending);
      PageOfOrdered(ListOf(key), rows, dateOrder == OrderedDescending, pageIndex, pageSize);
      Page(rows, pageIndex, pageSize)
    }

    /** Every page is cut from the full read in the same order: reading a page equals paging the full read. */
    lemma PageIsWindow(key: string, pageIndex: nat, pageSize: nat, dateOrder: DateOrder)
      requires Valid()
      ensures ObjectWithKey(key, pageIndex, pageSize, dateOrder) == Page(ObjectWithKey(key, 0, 0, dateOrder), pageIndex, pageSize)
    {
      var rows := InDateOrder(ListOf(key), dateOrder == OrderedDescending);
      assert ObjectWithKey(key, 0, 0, dateOrder) == rows;
    }

    /** Reading list `key` newest first gives the oldest-first read backwards. */
    lemma DescendingReversesAscending(key: string)
      requires Valid()
      ensures ObjectWithKey(key, 0, 0, OrderedDescending) == Reverse(ObjectWithKey(key, 0, 0, OrderedAscending))
    {
      NewestFirstIsReversed(ListOf(key));
    }
  }
}
