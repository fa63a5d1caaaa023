# ARStoreDBManager in Dafny

ARStoreDBManager is an Objective-C key/value store on top of SQLite (through
FMDB). It keeps two kinds of data:

- **single values**: one object per key, overwritten by `storeWithKey:object:`
  and cleared by a nil object;
- **lists**: named collections of records (`ARStoreDBModel`: identity, object,
  createdTime). `setObjectWithKey:object:identityKey:` upserts records by
  identity. `removeWithKey:identities:` deletes records or clears a list.
  `objectCountWithKey:` counts records. `objectWithKey:pageIndex:pageSize:dateOrder:`
  reads records ordered by creation time, one page at a time.

The model is a class `StoreDB.StoreDBManager<V>` with three fields:

- `values`, the single-value table, a map from key to object;
- `lists`, the list tables, a map from list name to a map from identity to `Entry(obj, createdTime)`;
- `clock`, a logical clock that stamps every row write.

Its invariant `Valid()` says that every list is *well stamped*: every record was
written before the current tick, and no two records of a list share a tick.
Because of this, ordering a list by creation time is well defined.

Files:

- `Wrappers.dfy`: the `Option` type.
- `StoreRecords.dfy`: the records and the three input shapes of a list write
  (one object, an array, a dictionary). It also holds the rule that reads
  identities from an array until the first object without one.
- `ListWrites.dfy`: a batch of upserts as a fold (`UpsertAll`), with the
  lemmas about what a batch leaves in a list. It also has the count of a list
  after a delete.
- `ListReads.dfy`: the date-ordered listing of a list (`InDateOrder`), its
  uniqueness, and the relation between the two directions. It also has
  paging (`Page`).
- `StoreDBManager.dfy`: the store class with its five operations.

Interpretations the header leaves open, as modelled:

- A page starts at record `pageIndex * pageSize`. `pageSize == 0` returns every record.
- `NSOrderedDescending` reads newest first. `NSOrderedAscending` and `NSOrderedSame` read oldest first.
- A list write creates the list even if its first object fails.
- The objects written before a failing one stay written.
- `removeWithKey:identities:` with a nil or empty array clears the list.
- Otherwise it deletes every listed identity that is present. It reports
  success only if every listed identity was still present when its turn came,
  that is, all were present and none was repeated.
- The count of a list that was never written is 0.

## Model

| member | source | states |
|---|---|---|
| StoreDB.StoreDBManager.StoreWithKey | Classes/ARStoreDBManager.h:29-36 | a present object replaces the slot of `key`, nil empties it; every other slot, every list and the clock are unchanged; the store stays well stamped |
| StoreDB.StoreDBManager.SetObjectWithKey | Classes/ARStoreDBManager.h:39-51 | the list `key` becomes the old list with the written items upserted at consecutive ticks; for an object or array the written items are exactly the identified prefix and success means every object had an identity; for a dictionary every entry ends up stored under its key; the count afterwards is the size of the old identities plus the written ones; single values unchanged |
| StoreDB.StoreDBManager.WriteObjects | Classes/ARStoreDBManager.h:43-46 | the loop over an object or array writes exactly the identified prefix, one tick each, and reports success exactly when no object lacked an identity |
| StoreDB.StoreDBManager.WriteEntries | Classes/ARStoreDBManager.h:45 | the loop over a dictionary writes every entry once, under its own key, with the entry's value |
| StoreDB.StoreDBManager.RemoveWithKey | Classes/ARStoreDBManager.h:53-59 | a missing list gives failure and no change; an empty identity array empties the list with success; otherwise the listed identities are deleted, success holds exactly when all were present and distinct, and then the count drops by their number |
| StoreDB.StoreDBManager.RemoveEach | Classes/ARStoreDBManager.h:56-57 | the deletion loop removes exactly the listed identities and reports whether each was present when reached |
| StoreDB.StoreDBManager.ListOf | Classes/ARStoreDBManager.h:61-80 | the records of list `key`, and the empty list for a key never written; the count and the read are both taken from it, so both see a missing list as empty |
| StoreDB.StoreDBManager.ObjectCountWithKey | Classes/ARStoreDBManager.h:61-66 | the count equals the length of a full read of the list (both taken from ListOf), and is 0 for a list that does not exist |
| StoreDB.StoreDBManager.ObjectWithKey | Classes/ARStoreDBManager.h:69-80 | every returned record is what ListOf(key) stores under its identity, so a missing list reads as empty; records are strictly ordered by creation time in the direction dateOrder asks; pageSize 0 returns every record of the list; a page has at most pageSize records and is empty past the end |
| StoreDB.StoreDBManager.PageIsWindow | Classes/ARStoreDBManager.h:72-73 | reading a page equals cutting that page out of the full read in the same order |
| StoreDB.StoreDBManager.DescendingReversesAscending | Classes/ARStoreDBManager.h:74 | the newest-first full read is the oldest-first full read reversed |
| StoreRecords.Elements | Classes/ARStoreDBManager.h:42-44 | the objects whose identity is read through identityKey: the one object of a single-object write, or each element of an array, one level deep (a dictionary is split by its keys instead) |
| StoreRecords.IdentifyPrefix | Classes/ARStoreDBManager.h:43-46 | the items are the objects from the front, each with the identity read from it, and the first object left out has no identity |
| StoreRecords.IdentifyPrefixComplete | Classes/ARStoreDBManager.h:46 | the identified prefix covers the whole input exactly when every object has an identity |
| StoreRecords.IdentifyPrefixUnique | Classes/ARStoreDBManager.h:43-46 | any item sequence with the prefix properties is the identified prefix |
| ListWrites.Upsert | Classes/ARStoreDBManager.h:44-47 | one row write: the record of the identity now holds the object, stamped with the given tick, replacing any record with that identity; characterised through the batch lemmas below |
| ListWrites.UpsertAll | Classes/ARStoreDBManager.h:44-47 | a batch of row writes in order, item i stamped at tick start + i; what it leaves in a list is stated by UpsertAllKeys, UpsertAllUntouched, UpsertAllLatest, UpsertAllDistinct, UpsertTwiceOverwrites and UpsertAllStamped |
| ListWrites.UpsertAllKeys | Classes/ARStoreDBManager.h:47 | after a batch the list holds exactly its old identities plus the batch's, so a repeated identity never adds a record |
| ListWrites.UpsertAllUntouched | Classes/ARStoreDBManager.h:47 | a record whose identity the batch does not carry is unchanged |
| ListWrites.UpsertAllLatest | Classes/ARStoreDBManager.h:47 | the record of an identity holds the last object written under it, stamped with that write's tick |
| ListWrites.UpsertAllDistinct | Classes/ARStoreDBManager.h:45 | a batch with distinct identities, as a dictionary gives, stores every item as given |
| ListWrites.UpsertTwiceOverwrites | Classes/ARStoreDBManager.h:47 | writing one identity twice leaves one record holding the second object |
| ListWrites.UpsertStamped | Classes/ARStoreDBManager.h:21 | one row write at the current tick keeps a list well stamped once the clock moves on |
| ListWrites.UpsertAllStamped | Classes/ARStoreDBManager.h:21 | a batch at consecutive ticks keeps a list well stamped with the clock advanced by the batch length |
| ListWrites.RemoveAllCount | Classes/ARStoreDBManager.h:53-66 | deleting n distinct present identities leaves n records fewer |
| ListWrites.RemoveNamedCount | Classes/ARStoreDBManager.h:53-66 | the same count on the set of identities of a list |
| ListReads.FirstExists | Classes/ARStoreDBManager.h:74 | a non-empty well-stamped list has a record that comes first in either direction |
| ListReads.FirstUnique | Classes/ARStoreDBManager.h:74 | at most one record comes first |
| ListReads.InDateOrder | Classes/ARStoreDBManager.h:74-80 | the listing has every record of the list exactly once, as stored, in strictly increasing (or decreasing) creation time |
| ListReads.ListedInOrderUnique | Classes/ARStoreDBManager.h:74 | two listings of a list in the same direction are equal, so the read order is fully determined |
| ListReads.ReverseListed | Classes/ARStoreDBManager.h:74 | a listing read backwards is a listing in the other direction |
| ListReads.ReverseReverse | Classes/ARStoreDBManager.h:74 | reading rows backwards twice gives them back, so either direction of a read determines the other |
| ListReads.NewestFirstIsReversed | Classes/ARStoreDBManager.h:74 | the newest-first listing is the oldest-first listing reversed |
| ListReads.Page | Classes/ARStoreDBManager.h:72-73 | pageSize 0 gives all rows; otherwise at most pageSize rows, each the row at offset pageIndex * pageSize plus its position, with the exact length, and none past the end |
| ListReads.PageLocates | Classes/ARStoreDBManager.h:72-73 | row k is on page k / pageSize at position k % pageSize |
| ListReads.PagesDisjoint | Classes/ARStoreDBManager.h:72-73 | positions on two different pages stand for different rows |
| ListReads.PageOfOrdered | Classes/ARStoreDBManager.h:72-74 | a page of an ordered read is ordered and holds only stored records |

## Left out

- The SQLite/FMDB backend, its table layout and the JSON serialization of objects are not modelled. The tables are maps, and objects are values of a type parameter `V`.
- The identityKey lookup through key-value coding is not modelled. The caller supplies `extractIdentity: V -> Option<string>` instead, and `None` stands for an object without a value at identityKey.
- The shared instance `shareStoreDBManager` (line 27) is not modelled. Each `StoreDBManager` object stands for one store.
- `createdTime` is an NSDate in the source. Here it is a tick of a logical clock, so two writes never share a creation time. Wall-clock ties and clock changes are not modelled.
- Locking and concurrent access are not modelled.
- StoreDB.StoreDBManager.StoreWithKey: always reports success, because database and serialization failures are not modelled.
- StoreDB.StoreDBManager.SetObjectWithKey: a dictionary write always succeeds. A nil object is not a separate case: it behaves like one object without an identity. Database and serialization failures are not modelled.
- StoreDB.StoreDBManager.RemoveWithKey: a nil identity array is modelled as the empty sequence.
- StoreDB.StoreDBManager.ObjectWithKey: pageIndex and pageSize are natural numbers. Negative NSInteger arguments and the product overflowing are not modelled.
- StoreDB.StoreDBManager.ObjectCountWithKey: the count is an unbounded natural number, not an NSUInteger.
- There is no getter for single values: the header declares none, so the `values` field itself is the observable state.
- Reads filtered by a condition, or ordered by a field other than the creation time, are not declared in this header and are not modelled.
