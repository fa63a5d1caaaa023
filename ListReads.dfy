/**
 * Reading a list: its records ordered by the time they were written, in the
 * direction dateOrder asks for, and cut into pages
 * (Classes/ARStoreDBManager.h:69-80).
 */
module ListReads {
  import opened StoreRecords

  /** Tick `s` comes before tick `t` in the requested direction. */
  predicate Before(s: nat, t: nat, newestFirst: bool)
  {
    if newestFirst then s > t else s < t
  }

  /** `id` is the record that a read in the given direction puts first. */
  predicate IsFirst<V>(list: map<string, Entry<V>>, id: string, newestFirst: bool)
  {
    id in list &&
    forall other :: other in list && other != id ==> Before(list[id].createdTime, list[other].createdTime, newestFirst)
  }

  /** A non-empty list whose ticks are pairwise distinct has a first record in either direction. */
  lemma {:induction false} FirstExists<V>(list: map<string, Entry<V>>, newestFirst: bool)
    requires |list| > 0 && DistinctTimes(list)
    ensures exists id :: IsFirst(list, id, newestFirst)
    decreases |list|
  {
    var k :| k in list;
    var rest := list - {k};
    assert rest.Keys == list.Keys - {k};
    if |rest| == 0 {
      assert rest.Keys == {};
      assert IsFirst(list, k, newestFirst);
    } else {
      FirstExists(rest, newestFirst);
      var f :| IsFirst(rest, f, newestFirst);
      var first := if Before(list[k].createdTime, list[f].createdTime, newestFirst) then k else f;
      forall other | other in list && other != first
        ensures Before(list[first].createdTime, list[other].createdTime, newestFirst)
      {
        if other != k && other != f {
          assert other in rest && rest[other] == list[other];
          assert Before(list[f].createdTime, list[other].createdTime, newestFirst);
        } else {
          assert list[k].createdTime != list[f].createdTime;
        }
      }
      assert IsFirst(list, first, newestFirst);
    }
  }

  /** At most one record comes first: `Before` is strict, so two first records would each precede the other. */
  lemma FirstUnique<V>(list: map<string, Entry<V>>, newestFirst: bool)
    ensures forall a, b :: IsFirst(list, a, newestFirst) && IsFirst(list, b, newestFirst) ==> a == b
  {
  }

  /** `r` lists every record of `list` once, as the list holds it, in the requested direction. */
  ghost predicate ListedInOrder<V>(list: map<string, Entry<V>>, r: seq<Record<V>>, newestFirst: bool)
  {
    && |r| == |list|
    && Identities(r) == list.Keys
    && (forall i :: 0 <= i < |r| ==> Holds(list, r[i]))
    && (forall i, j :: 0 <= i < j < |r| ==> Before(r[i].createdTime, r[j].createdTime, newestFirst))
  }

  /** Putting the first record in front of the ordered rest orders the whole list. */
  lemma ListedInOrderCons<V>(list: map<string, Entry<V>>, id: string, newestFirst: bool, tail: seq<Record<V>>)
    requires IsFirst(list, id, newestFirst)
    requires ListedInOrder(list - {id}, tail, newestFirst)
    ensures ListedInOrder(list, [Record(id, list[id].obj, list[id].createdTime)] + tail, newestFirst)
  {
    var rest := list - {id};
    assert rest.Keys == list.Keys - {id};
    var r := [Record(id, list[id].obj, list[id].createdTime)] + tail;
    ConsHolds(list, id, tail);
    ConsIdentities(r[0], tail);
    ConsOrdered(list, id, newestFirst, tail);
  }

  lemma ConsHolds<V>(list: map<string, Entry<V>>, id: string, tail: seq<Record<V>>)
    requires id in list
    requires forall i :: 0 <= i < |tail| ==> Holds(list - {id}, tail[i])
    ensures forall i :: 0 <= i < |tail| + 1 ==> Holds(list, ([Record(id, list[id].obj, list[id].createdTime)] + tail)[i])
  {
    var r := [Record(id, list[id].obj, list[id].createdTime)] + tail;
    forall i | 0 <= i < |r|
      ensures Holds(list, r[i])
    {
      if i > 0 {
        assert r[i] == tail[i - 1];
        assert Holds(list - {id}, tail[i - 1]);
      }
    }
  }

  lemma ConsIdentities<V>(head: Record<V>, tail: seq<Record<V>>)
    ensures Identities([head] + tail) == {head.identity} + Identities(tail)
  {
    var r := [head] + tail;
    forall x | x in Identities(r)
      ensures x in {head.identity} + Identities(tail)
    {
      var i :| 0 <= i < |r| && r[i].identity == x;
      if i > 0 {
        assert r[i] == tail[i - 1];
      }
    }
    forall x | x in Identities(tail)
      ensures x in Identities(r)
    {
      var i :| 0 <= i < |tail| && tail[i].identity == x;
      assert r[i + 1] == tail[i];
    }
    assert r[0] == head;
  }

  lemma ConsOrdered<V>(list: map<string, Entry<V>>, id: string, newestFirst: bool, tail: seq<Record<V>>)
    requires IsFirst(list, id, newestFirst)
    requires forall i :: 0 <= i < |tail| ==> Holds(list - {id}, tail[i])
    requires forall i, j :: 0 <= i < j < |tail| ==> Before(tail[i].createdTime, tail[j].createdTime, newestFirst)
    ensures var r := [Record(id, list[id].obj, list[id].createdTime)] + tail;
      forall i, j :: 0 <= i < j < |r| ==> Before(r[i].createdTime, r[j].createdTime, newestFirst)
  {
    var r := [Record(id, list[id].obj, list[id].createdTime)] + tail;
    forall i, j | 0 <= i < j < |r|
      ensures Before(r[i].createdTime, r[j].createdTime, newestFirst)
    {
      assert r[j] == tail[j - 1];
      assert Holds(list - {id}, tail[j - 1]);
      if i > 0 {
        assert r[i] == tail[i - 1];
      } else {
        var other := tail[j - 1].identity;
        assert other in list && other != id;
        assert list[other].createdTime == r[j].createdTime;
      }
    }
  }

  /**
   * The records of a list as a read returns them before paging: every record
   * exactly once, each as the list holds it, in strictly increasing creation
   * time (or strictly decreasing when newestFirst).
   */
  function InDateOrder<V>(list: map<string, Entry<V>>, newestFirst: bool): (r: seq<Record<V>>)
    requires DistinctTimes(list)
    ensures |r| == |list|
    ensures Identities(r) == list.Keys
    ensures forall i :: 0 <= i < |r| ==> Holds(list, r[i])
    ensures forall i, j :: 0 <= i < j < |r| ==> Before(r[i].createdTime, r[j].createdTime, newestFirst)
    decreases |list|
  {
    if |list| == 0 then []
    else
      FirstExists(list, newestFirst);
      FirstUnique(list, newestFirst);
      var id :| IsFirst(list, id, newestFirst);
      assert (list - {id}).Keys == list.Keys - {id};
      var tail := InDateOrder(list - {id}, newestFirst);
      ListedInOrderCons(list, id, newestFirst, tail);
      [Record(id, list[id].obj, list[id].createdTime)] + tail
  }

  /** The head of an ordered listing is the first record of the list. */
  lemma ListedHeadIsFirst<V>(list: map<string, Entry<V>>, r: seq<Record<V>>, newestFirst: bool)
    requires ListedInOrder(list, r, newestFirst) && |r| > 0
    ensures IsFirst(list, r[0].identity, newestFirst)
    ensures list[r[0].identity] == Entry(r[0].obj, r[0].createdTime)
  {
    var id := r[0].identity;
    assert Holds(list, r[0]);
    forall other | other in list && other != id
      ensures Before(list[id].createdTime, list[other].createdTime, newestFirst)
    {
      assert other in Identities(r);
      var k :| 0 <= k < |r| && r[k].identity == other;
      assert Holds(list, r[k]);
    }
  }

  /** The tail of an ordered listing lists the rest of the list. */
  lemma ListedTail<V>(list: map<string, Entry<V>>, r: seq<Record<V>>, newestFirst: bool)
    requires ListedInOrder(list, r, newestFirst) && |r| > 0
    ensures ListedInOrder(list - {r[0].identity}, r[1..], newestFirst)
  {
    var id := r[0].identity;
    var tail := r[1..];
    ConsSplit(r);
    ConsIdentities(r[0], tail);
    forall i | 0 <= i < |tail|
      ensures tail[i].identity != id && Holds(list - {id}, tail[i])
    {
      assert tail[i] == r[i + 1];
      assert Holds(list, r[i + 1]);
      assert Before(r[0].createdTime, r[i + 1].createdTime, newestFirst);
    }
    var rest := list - {id};
    assert rest.Keys == list.Keys - {id};
    assert Identities(tail) == rest.Keys;
    forall i, j | 0 <= i < j < |tail|
      ensures Before(tail[i].createdTime, tail[j].createdTime, newestFirst)
    {
      assert tail[i] == r[i + 1] && tail[j] == r[j + 1];
    }
  }

  /** Two listings in the same direction start with the same record. */
  lemma SameHead<V>(list: map<string, Entry<V>>, r1: seq<Record<V>>, r2: seq<Record<V>>, newestFirst: bool)
    requires ListedInOrder(list, r1, newestFirst) && ListedInOrder(list, r2, newestFirst) && |r1| > 0
    ensures |r2| > 0 && r1[0] == r2[0]
  {
    ListedHeadIsFirst(list, r1, newestFirst);
    ListedHeadIsFirst(list, r2, newestFirst);
    FirstUnique(list, newestFirst);
  }

  /**
   * There is only one way to list a list in date order: any two listings of
   * the same records in the same direction are equal.
   */
  lemma {:induction false} ListedInOrderUnique<V>(list: map<string, Entry<V>>, r1: seq<Record<V>>, r2: seq<Record<V>>, newestFirst: bool)
    requires ListedInOrder(list, r1, newestFirst) && ListedInOrder(list, r2, newestFirst)
    ensures r1 == r2
    decreases |r1|
  {
    if |r1| > 0 {
      SameHead(list, r1, r2, newestFirst);
      var id := r1[0].identity;
      ListedTail(list, r1, newestFirst);
      ListedTail(list, r2, newestFirst);
      var t1, t2 := r1[1..], r2[1..];
      ListedInOrderUnique(list - {id}, t1, t2, newestFirst);
      SameHeadSameTail(r1, r2);
    }
  }

  /** Two non-empty sequences with equal heads and equal tails are equal. */
  lemma SameHeadSameTail<T>(a: seq<T>, b: seq<T>)
    requires |a| > 0 && |b| > 0 && a[0] == b[0] && a[1..] == b[1..]
    ensures a == b
  {
    ConsSplit(a);
    ConsSplit(b);
  }

  /** A non-empty sequence is its head in front of its tail. */
  lemma ConsSplit<T>(a: seq<T>)
    requires |a| > 0
    ensures a == [a[0]] + a[1..]
  {
  }

  /** The rows of `s` from last to first. */
  function Reverse<T>(s: seq<T>): seq<T>
  {
    seq(|s|, i requires 0 <= i < |s| => s[|s| - 1 - i])
  }

  /** Reading backwards twice gives the rows back. */
  lemma ReverseReverse<T>(s: seq<T>)
    ensures Reverse(Reverse(s)) == s
  {
    var b := Reverse(s);
    forall i | 0 <= i < |s| ensures Reverse(b)[i] == s[i] {
      assert Reverse(b)[i] == b[|s| - 1 - i];
    }
  }

  lemma ReverseIdentities<V>(r: seq<Record<V>>)
    ensures Identities(Reverse(r)) == Identities(r)
  {
    var b := Reverse(r);
    forall x | x in Identities(r) ensures x in Identities(b) {
      var k :| 0 <= k < |r| && r[k].identity == x;
      assert b[|r| - 1 - k] == r[k];
    }
    forall x | x in Identities(b) ensures x in Identities(r) {
      var k :| 0 <= k < |b| && b[k].identity == x;
    }
  }

  /** Reading a listing backwards lists the same records in the other direction. */
  lemma ReverseListed<V>(list: map<string, Entry<V>>, r: seq<Record<V>>, newestFirst: bool)
    requires ListedInOrder(list, r, newestFirst)
    ensures ListedInOrder(list, Reverse(r), !newestFirst)
  {
    var b := Reverse(r);
    forall i, j | 0 <= i < j < |b|
      ensures Before(b[i].createdTime, b[j].createdTime, !newestFirst)
    {
      assert Before(r[|r| - 1 - j].createdTime, r[|r| - 1 - i].createdTime, newestFirst);
    }
    ReverseIdentities(r);
    assert forall i :: 0 <= i < |b| ==> Holds(list, b[i]);
  }

  /** Newest first is exactly oldest first read backwards. */
  lemma NewestFirstIsReversed<V>(list: map<string, Entry<V>>)
    requires DistinctTimes(list)
    ensures InDateOrder(list, true) == Reverse(InDateOrder(list, false))
  {
    var up := InDateOrder(list, false);
    ReverseListed(list, up, false);
    ListedInOrderUnique(list, InDateOrder(list, true), Reverse(up), true);
  }

  /**
   * One page of rows: with pageSize 0 every row; otherwise the window of at
   * most pageSize rows that starts at offset pageIndex * pageSize, empty when
   * that offset is at or past the end.
   */
  function Page<T>(rows: seq<T>, pageIndex: nat, pageSize: nat): (r: seq<T>)
    ensures pageSize == 0 ==> r == rows
    ensures pageSize > 0 ==> |r| <= pageSize
    ensures pageSize > 0 && pageIndex * pageSize >= |rows| ==> r == []
    ensures pageSize > 0 && pageIndex * pageSize < |rows| ==>
      |r| == (if |rows| - pageIndex * pageSize < pageSize then |rows| - pageIndex * pageSize else pageSize)
    ensures pageSize > 0 ==> forall i :: 0 <= i < |r| ==> pageIndex * pageSize + i < |rows| && r[i] == rows[pageIndex * pageSize + i]
  {
    if pageSize == 0 then rows
    else
      var start := pageIndex * pageSize;
      if start >= |rows| then []
      else if |rows| - start < pageSize then rows[start..]
      else rows[start..start + pageSize]
  }

  /** Every row is found on page k / pageSize, at position k % pageSize. */
  lemma PageLocates<T>(rows: seq<T>, pageSize: nat, k: nat)
    requires pageSize > 0 && k < |rows|
    ensures k % pageSize < |Page(rows, k / pageSize, pageSize)|
    ensures Page(rows, k / pageSize, pageSize)[k % pageSize] == rows[k]
  {
    var p, q := k / pageSize, k % pageSize;
    assert p * pageSize + q == k;
    assert p * pageSize <= k;
  }

  /** A window of an ordered read is itself ordered and holds only stored records. */
  lemma WindowOrdered<V>(list: map<string, Entry<V>>, rows: seq<Record<V>>, newestFirst: bool, start: nat, r: seq<Record<V>>)
    requires forall i :: 0 <= i < |rows| ==> Holds(list, rows[i])
    requires forall i, j :: 0 <= i < j < |rows| ==> Before(rows[i].createdTime, rows[j].createdTime, newestFirst)
    requires forall i {:trigger r[i]} :: 0 <= i < |r| ==> start + i < |rows| && r[i] == rows[start + i]
    ensures forall i :: 0 <= i < |r| ==> Holds(list, r[i])
    ensures forall i, j :: 0 <= i < j < |r| ==> Before(r[i].createdTime, r[j].createdTime, newestFirst)
  {
    forall i | 0 <= i < |r| ensures Holds(list, r[i]) {
      var row := r[i];
      assert row == rows[start + i];
    }
    forall i, j | 0 <= i < j < |r|
      ensures Before(r[i].createdTime, r[j].createdTime, newestFirst)
    {
      var ri, rj := r[i], r[j];
      assert ri == rows[start + i] && rj == rows[start + j];
    }
  }

  /** A page of an ordered read is itself ordered and holds only stored records. */
  lemma PageOfOrdered<V>(list: map<string, Entry<V>>, rows: seq<Record<V>>, newestFirst: bool, pageIndex: nat, pageSize: nat)
    requires forall i :: 0 <= i < |rows| ==> Holds(list, rows[i])
    requires forall i, j :: 0 <= i < j < |rows| ==> Before(rows[i].createdTime, rows[j].createdTime, newestFirst)
    ensures var r := Page(rows, pageIndex, pageSize);
      && (forall i :: 0 <= i < |r| ==> Holds(list, r[i]))
      && (forall i, j :: 0 <= i < j < |r| ==> Before(r[i].createdTime, r[j].createdTime, newestFirst))
  {
    if pageSize > 0 {
      WindowOrdered(list, rows, newestFirst, pageIndex * pageSize, Page(rows, pageIndex, pageSize));
    }
  }

  /** Multiplying by a page size keeps the order of page indices. */
  lemma MulMonotone(a: nat, b: nat, size: nat)
    requires a <= b
    ensures a * size <= b * size
  {
    assert b * size == a * size + (b - a) * size;
  }

  /** No row is on two pages: positions on different pages stand for different rows. */
  lemma PagesDisjoint<T>(rows: seq<T>, pageSize: nat, p1: nat, i1: nat, p2: nat, i2: nat)
    requires pageSize > 0
    requires i1 < |Page(rows, p1, pageSize)| && i2 < |Page(rows, p2, pageSize)|
    requires p1 != p2
    ensures p1 * pageSize + i1 != p2 * pageSize + i2
  {
    if p1 < p2 {
      MulMonotone(p1 + 1, p2, pageSize);
      assert (p1 + 1) * pageSize == p1 * pageSize + pageSize;
    } else {
      MulMonotone(p2 + 1, p1, pageSize);
      assert (p2 + 1) * pageSize == p2 * pageSize + pageSize;
    }
  }
}
