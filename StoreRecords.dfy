/**
 * The records a list holds and the shapes a caller may hand to a list write
 * (Classes/ARStoreDBManager.h).
 */
module StoreRecords {
  import opened Wrappers

  /** One stored row of a list, keyed elsewhere by its identity. */
  datatype Entry<V> = Entry(obj: V, createdTime: nat)

  /** What a read hands back: an ARStoreDBModel {identity, object, createdTime}. */
  datatype Record<V> = Record(identity: string, obj: V, createdTime: nat)

  /** One (identity, object) pair produced by decomposing a write's input. */
  datatype Item<V> = Item(identity: string, obj: V)

  /**
   * The three input shapes of setObjectWithKey:object:identityKey:
   * a single object, an NSArray of objects, or an NSDictionary whose keys are identities.
   */
  datatype Shape<V> = Scalar(obj: V) | Sequence(objs: seq<V>) | Keyed(entries: map<string, V>)

  /** The NSComparisonResult passed as dateOrder. */
  datatype DateOrder = OrderedAscending | OrderedSame | OrderedDescending

  /**
   * A list is well stamped against a logical clock when every record was written
   * before the clock's current tick and no two records share a tick.
   */
  ghost predicate Stamped<V>(list: map<string, Entry<V>>, clock: nat)
  {
    && (forall id :: id in list ==> list[id].createdTime < clock)
    && DistinctTimes(list)
  }

  /** No two records of a list were written at the same tick. */
  ghost predicate DistinctTimes<V>(list: map<string, Entry<V>>)
  {
    forall a, b :: a in list && b in list && a != b ==> list[a].createdTime != list[b].createdTime
  }

  /** The record `r` is exactly what `list` holds under `r.identity`. */
  ghost predicate Holds<V>(list: map<string, Entry<V>>, r: Record<V>)
  {
    r.identity in list && list[r.identity] == Entry(r.obj, r.createdTime)
  }

  function Identities<V>(rs: seq<Record<V>>): set<string>
  {
    set i | 0 <= i < |rs| :: rs[i].identity
  }

  function Ids<V>(items: seq<Item<V>>): set<string>
  {
    set i | 0 <= i < |items| :: items[i].identity
  }

  ghost predicate DistinctIds<V>(items: seq<Item<V>>)
  {
    forall i, j :: 0 <= i < j < |items| ==> items[i].identity != items[j].identity
  }

  /** The objects whose identity is read through identityKey: one for a scalar, each element of an array. */
  function Elements<V>(shape: Shape<V>): seq<V>
    requires !shape.Keyed?
  {
    match shape
    case Scalar(obj) => [obj]
    case Sequence(objs) => objs
  }

  /**
   * Reads identities front to back and stops at the first object that has none:
   * the items a batch write gets to store before it is interrupted.
   */
  function IdentifyPrefix<V>(objs: seq<V>, extractIdentity: V -> Option<string>): (items: seq<Item<V>>)
    ensures |items| <= |objs|
    ensures forall i :: 0 <= i < |items| ==>
      extractIdentity(objs[i]) == Some(items[i].identity) && items[i].obj == objs[i]
    ensures |items| < |objs| ==> extractIdentity(objs[|items|]).None?
  {
    if objs == [] then []
    else
      match extractIdentity(objs[0])
      case None => []
      case Some(id) => [Item(id, objs[0])] + IdentifyPrefix(objs[1..], extractIdentity)
  }

  /** The prefix is the whole input exactly when every object has an identity. */
  lemma {:induction false} IdentifyPrefixComplete<V>(objs: seq<V>, extractIdentity: V -> Option<string>)
    ensures |IdentifyPrefix(objs, extractIdentity)| == |objs|
        <==> forall i :: 0 <= i < |objs| ==> extractIdentity(objs[i]).Some?
  {
    var items := IdentifyPrefix(objs, extractIdentity);
    if |items| < |objs| {
      assert extractIdentity(objs[|items|]).None?;
    }
  }

  /** Any sequence with the three properties of IdentifyPrefix is IdentifyPrefix. */
  lemma {:induction false} IdentifyPrefixUnique<V>(objs: seq<V>, extractIdentity: V -> Option<string>, items: seq<Item<V>>)
    requires |items| <= |objs|
    requires forall i :: 0 <= i < |items| ==>
      extractIdentity(objs[i]) == Some(items[i].identity) && items[i].obj == objs[i]
    requires |items| < |objs| ==> extractIdentity(objs[|items|]).None?
    ensures items == IdentifyPrefix(objs, extractIdentity)
  {
    if objs == [] {
    } else if items == [] {
      assert extractIdentity(objs[0]).None?;
    } else {
      assert extractIdentity(objs[0]) == Some(items[0].identity);
      IdentifyPrefixUnique(objs[1..], extractIdentity, items[1..]);
      assert items == [items[0]] + items[1..];
    }
  }
}
