/** `IndexedDBStorage`: the offline queue kept in an IndexedDB object store
    and drained to the server through `uploadBase64`.

    `Database` is the persisted database: its schema version, whether the
    auto-increment object store exists, the records by key and the store's key
    generator. It outlives any connection. `IndexedDBStorage` is the object
    the uploader holds: its `db` handle and its `idle` flag. Transactions,
    requests and their events are flattened into sequential steps; each
    engine outcome the code reacts to is a parameter. */
module IndexedDB {
  import opened Values
  import opened KeyOrder
  import Online

  const DbVersion: string := "1.0"
  const ConnectionFailed: string := "Database connection failed"
  const BuildFailed: string := "Database build failed"
  const StoreFailed: string := "Failed to store the item"

  /** A queued record, `{name, data}`. */
  datatype Item = Item(name: string, data: string)

  /** One upload made by a drain: the key read by the cursor, its record, and
      the status of the response to that upload. */
  datatype Delivery = Delivery(key: nat, item: Item, status: int)

  /** The re-call of `uploadBase64` a failed upload schedules. Its callback is
      the drain's, so when it fires it deletes `key` once more. */
  datatype Retry = Retry(key: nat, item: Item)

  /** The uploads a drain makes from records `m`: one per record, from the
      least key up; the upload numbered `from + i` gets status
      `oracle(from + i)`. */
  ghost function Schedule(m: map<nat, Item>, oracle: nat -> int, from: nat): seq<Delivery>
    decreases |m.Keys|
  {
    if m.Keys == {} then []
    else
      var k := MinKey(m.Keys);
      assert (m - {k}).Keys == m.Keys - {k};
      [Delivery(k, m[k], oracle(from))] + Schedule(m - {k}, oracle, from + 1)
  }

  /** The retries scheduled by the failed uploads of `log`, in order. */
  function Failures(log: seq<Delivery>): seq<Retry>
  {
    if log == [] then []
    else
      var d := log[|log| - 1];
      Failures(log[..|log| - 1]) + (if Online.Succeeded(d.status) then [] else [Retry(d.key, d.item)])
  }

  lemma ScheduleUnfold(m: map<nat, Item>, k: nat, oracle: nat -> int, from: nat)
    requires k in m && forall j :: j in m ==> k <= j
    ensures Schedule(m, oracle, from) == [Delivery(k, m[k], oracle(from))] + Schedule(m - {k}, oracle, from + 1)
  {
  }

  /** One drain step: the least record's upload moves from the schedule
      still to come onto the log. */
  lemma DrainStep(log: seq<Delivery>, m: map<nat, Item>, k: nat, oracle: nat -> int, all: seq<Delivery>)
    requires k in m && forall j :: j in m ==> k <= j
    requires log + Schedule(m, oracle, |log|) == all
    ensures (log + [Delivery(k, m[k], oracle(|log|))]) + Schedule(m - {k}, oracle, |log| + 1) == all
  {
    var d := Delivery(k, m[k], oracle(|log|));
    var rest := Schedule(m - {k}, oracle, |log| + 1);
    ScheduleUnfold(m, k, oracle, |log|);
    SeqAssoc(log, [d], rest);
  }

  /** Regrouping of a concatenation, stated apart so DrainStep stays cheap
      to verify. */
  lemma SeqAssoc<T>(a: seq<T>, b: seq<T>, c: seq<T>)
    ensures a + (b + c) == (a + b) + c
  {
  }

  lemma FailuresSnoc(log: seq<Delivery>, d: Delivery)
    ensures Failures(log + [d]) == Failures(log) + (if Online.Succeeded(d.status) then [] else [Retry(d.key, d.item)])
  {
  }

  /** The retries of a log are its failed deliveries: every delivery whose
      status is not below 300 gives a retry of its key and item, and every
      retry comes from such a delivery; a log with no failure gives none. */
  lemma {:induction false} FailuresOfLog(log: seq<Delivery>)
    ensures |Failures(log)| <= |log|
    ensures forall i :: 0 <= i < |log| && !Online.Succeeded(log[i].status) ==>
      Retry(log[i].key, log[i].item) in Failures(log)
    ensures forall r :: r in Failures(log) ==>
      exists i :: 0 <= i < |log| && !Online.Succeeded(log[i].status) && r == Retry(log[i].key, log[i].item)
    ensures Failures(log) == [] <==> forall i :: 0 <= i < |log| ==> Online.Succeeded(log[i].status)
  {
    if log != [] {
      var init := log[..|log| - 1];
      var d := log[|log| - 1];
      FailuresOfLog(init);
      assert log == init + [d];
      forall r | r in Failures(log)
        ensures exists i :: 0 <= i < |log| && !Online.Succeeded(log[i].status) && r == Retry(log[i].key, log[i].item)
      {
        if r in Failures(init) {
          var i :| 0 <= i < |init| && !Online.Succeeded(init[i].status) && r == Retry(init[i].key, init[i].item);
          assert log[i] == init[i];
        } else {
          assert log[|log| - 1] == d;
        }
      }
      forall i | 0 <= i < |log| && !Online.Succeeded(log[i].status)
        ensures Retry(log[i].key, log[i].item) in Failures(log)
      {
        if i < |init| {
          assert log[i] == init[i];
        }
      }
      if Failures(log) == [] {
        forall i | 0 <= i < |log| ensures Online.Succeeded(log[i].status) {
          if i < |init| { assert log[i] == init[i]; }
        }
      }
    }
  }

  /** The drain visits the records in ascending key order, each once, with
      the record stored under the key and the oracle's status for its
      position. */
  lemma {:induction false} ScheduleFollowsKeyOrder(m: map<nat, Item>, oracle: nat -> int, from: nat)
    ensures |Schedule(m, oracle, from)| == |m.Keys| == |Ascending(m.Keys)|
    ensures forall i :: 0 <= i < |m.Keys| ==>
      var d := Schedule(m, oracle, from)[i];
      && d.key == Ascending(m.Keys)[i]
      && d.key in m && d.item == m[d.key]
      && d.status == oracle(from + i)
    decreases |m.Keys|
  {
    AscendingLength(m.Keys);
    if m.Keys != {} {
      var k := MinKey(m.Keys);
      var rest := m - {k};
      assert rest.Keys == m.Keys - {k};
      ScheduleFollowsKeyOrder(rest, oracle, from + 1);
      var sched := Schedule(m, oracle, from);
      var tail := Schedule(rest, oracle, from + 1);
      var order := Ascending(m.Keys);
      assert sched == [Delivery(k, m[k], oracle(from))] + tail;
      assert order == [k] + Ascending(rest.Keys);
      forall i | 0 <= i < |m.Keys|
        ensures sched[i].key == order[i] && sched[i].key in m && sched[i].item == m[sched[i].key]
        ensures sched[i].status == oracle(from + i)
      {
        if i > 0 {
          var j := i - 1;
          assert sched[i] == tail[j];
          assert order[i] == Ascending(rest.Keys)[j];
          assert tail[j].status == oracle(from + 1 + j);
          assert from + 1 + j == from + i;
        }
      }
    }
  }

  /** The drain is FIFO by key: keys strictly increase along the log, and
      every queued key is uploaded. */
  lemma ScheduleIsFifo(m: map<nat, Item>, oracle: nat -> int, from: nat)
    ensures var log := Schedule(m, oracle, from);
      && (forall i, j :: 0 <= i < j < |log| ==> log[i].key < log[j].key)
      && (forall k :: k in m ==> exists i :: 0 <= i < |log| && log[i].key == k)
  {
    var log := Schedule(m, oracle, from);
    ScheduleFollowsKeyOrder(m, oracle, from);
    AscendingSorted(m.Keys);
    AscendingContents(m.Keys);
    forall k | k in m ensures exists i :: 0 <= i < |log| && log[i].key == k {
      assert k in Ascending(m.Keys);
      var i :| 0 <= i < |Ascending(m.Keys)| && Ascending(m.Keys)[i] == k;
      assert log[i].key == k;
    }
  }

  /** Storing a record under a key above all present keys and then draining
      delivers everything that was queued before it first, and it last. */
  lemma {:induction false} StoreThenDrain(m: map<nat, Item>, k: nat, item: Item, oracle: nat -> int, from: nat)
    requires forall j :: j in m ==> j < k
    ensures Schedule(m[k := item], oracle, from) == Schedule(m, oracle, from) + [Delivery(k, item, oracle(from + |m.Keys|))]
    decreases |m.Keys|
  {
    var m' := m[k := item];
    if m.Keys == {} {
      assert m'.Keys == {k};
      ScheduleUnfold(m', k, oracle, from);
      assert (m' - {k}).Keys == {};
    } else {
      var j := MinKey(m.Keys);
      var rest := m - {j};
      var d := Delivery(j, m[j], oracle(from));
      var last := Delivery(k, item, oracle(from + |m.Keys|));
      assert rest.Keys == m.Keys - {j};
      assert |rest.Keys| + 1 == |m.Keys|;
      assert m' - {j} == rest[k := item];
      assert m'[j] == m[j];
      ScheduleUnfold(m', j, oracle, from);
      ScheduleUnfold(m, j, oracle, from);
      StoreThenDrain(rest, k, item, oracle, from + 1);
      SeqAssoc([d], Schedule(rest, oracle, from + 1), [last]);
    }
  }

  /** The persisted database behind the handle. */
  class Database {
    var version: string
    var hasStore: bool
    var records: map<nat, Item>
    var nextKey: nat
    /** Every key the store's generator has handed out, deleted ones too. */
    ghost var issued: set<nat>

    ghost predicate Valid()
      reads this
    {
      && (hasStore <==> version == DbVersion)
      && (!hasStore ==> records == map[] && issued == {})
      && 1 <= nextKey
      && records.Keys <= issued
      && forall k :: k in issued ==> k < nextKey
    }

    /** A database `open` has just created: no version, no object store. */
    constructor ()
      ensures Valid() && version == "" && !hasStore && records == map[]
    {
      version := "";
      hasStore := false;
      records := map[];
      nextKey := 1;
      issued := {};
    }

    /** `setVersion(DB_VERSION)` succeeding, then
        `createObjectStore(store, {autoIncrement: true})`: an empty store
        whose key generator starts at 1. */
    method Upgrade()
      requires Valid() && version != DbVersion
      modifies this
      ensures Valid() && hasStore && version == DbVersion
      ensures records == map[] && nextKey == 1 && issued == {}
    {
      version := DbVersion;
      hasStore := true;
      records := map[];
      nextKey := 1;
      issued := {};
    }

    /** `add({name, data})` committed: the record goes under the key
        generator's next key, which is above every key in the store. */
    method Add(item: Item) returns (key: nat)
      requires Valid() && hasStore
      modifies this
      ensures Valid() && hasStore && version == old(version)
      ensures key == old(nextKey) && nextKey == key + 1
      ensures records == old(records)[key := item]
      ensures issued == old(issued) + {key}
      ensures forall k :: k in old(issued) ==> k < key
    {
      key := nextKey;
      records := records[key := item];
      nextKey := nextKey + 1;
      issued := issued + {key};
    }

    /** `delete(key)` committed: removes that key; a key that is not there
        leaves the store as it was. */
    method Delete(key: nat)
      requires Valid()
      modifies this
      ensures Valid()
      ensures records == old(records) - {key}
      ensures version == old(version) && hasStore == old(hasStore) && nextKey == old(nextKey)
      ensures issued == old(issued)
    {
      records := records - {key};
    }

    /** What `openCursor(leftBound(lower))` yields first: the least key not
        below `lower`, or nothing when there is none. */
    method LeastKeyFrom(lower: nat) returns (r: Option<nat>)
      ensures r.Some? ==> r.value in records && lower <= r.value
      ensures r.Some? ==> forall k :: k in records && lower <= k ==> r.value <= k
      ensures r.None? ==> forall k :: k in records ==> k < lower
    {
      r := None;
      var rest := records.Keys;
      while rest != {}
        invariant rest <= records.Keys
        invariant r.Some? ==> r.value in records && lower <= r.value
        invariant r.Some? ==> forall k :: k in records && k !in rest && lower <= k ==> r.value <= k
        invariant r.None? ==> forall k :: k in records && k !in rest ==> k < lower
        decreases |rest|
      {
        var k :| k in rest;
        if lower <= k && (r.None? || k < r.value) {
          r := Some(k);
        }
        rest := rest - {k};
      }
    }
  }

  class IndexedDBStorage {
    var idle: bool
    var db: Database?

    ghost predicate Valid()
      reads this, db
    {
      db != null ==> db.Valid()
    }

    /** A new storage: not idle, not connected. */
    constructor ()
      ensures Valid() && !idle && db == null
    {
      idle := false;
      db := null;
    }

    /** `disconnect()`: drops the handle whether or not there is one; the
        persisted database is not touched, so calling it twice is harmless. */
    method Disconnect()
      modifies this
      ensures Valid() && db == null && idle == old(idle)
    {
      db := null;
    }

    /** `build(callback)`: when the version is already `'1.0'` nothing
        changes; otherwise a successful `setVersion` creates the store and
        a failed one disconnects. */
    method Build(setVersionOk: bool) returns (reply: Reply)
      requires Valid() && db != null
      modifies this, db
      ensures Valid() && idle == old(idle)
      ensures old(db.version) == DbVersion ==>
        db == old(db) && unchanged(db) && reply == Called(None)
      ensures old(db.version) != DbVersion && setVersionOk ==>
        && db == old(db) && db.hasStore && db.version == DbVersion
        && db.records == map[] && db.nextKey == 1 && db.issued == {}
        && reply == Called(None)
      ensures old(db.version) != DbVersion && !setVersionOk ==>
        db == null && unchanged(old(db)) && reply == Called(Some(BuildFailed))
    {
      if db.version == DbVersion {
        reply := Called(None);
        return;
      }
      if setVersionOk {
        db.Upgrade();
        reply := Called(None);
      } else {
        Disconnect();
        reply := Called(Some(BuildFailed));
      }
    }

    /** `store(file, data, callback)`: one committed `add` puts exactly one
        record under a key above every key the store has ever issued and
        reports success; a failed request reports an error and adds nothing.
        Without a handle, `createTransaction` throws: nothing is stored and
        the callback is never called. The success handler is not bound to
        the storage, so its `this.idle` is undefined and the drain is not
        re-armed: `idle` and the handle are left alone. */
    method Store(name: string, data: string, commitOk: bool) returns (reply: Reply)
      requires Valid() && (db != null ==> db.hasStore)
      modifies db
      ensures Valid()
      ensures db == null ==> reply == NoReply
      ensures db != null ==> db.hasStore && db.version == old(db.version)
      ensures db != null && commitOk ==>
        && db.records == old(db.records)[old(db.nextKey) := Item(name, data)]
        && db.issued == old(db.issued) + {old(db.nextKey)}
        && (forall k :: k in old(db.issued) ==> k < old(db.nextKey))
        && db.nextKey == old(db.nextKey) + 1
        && reply == Called(None)
      ensures db != null && !commitOk ==> unchanged(db) && reply == Called(Some(StoreFailed))
    {
      if db == null {
        // createTransaction dereferences the missing handle
        reply := NoReply;
        return;
      }
      if commitOk {
        var _ := db.Add(Item(name, data));
        reply := Called(None);
      } else {
        reply := Called(Some(StoreFailed));
      }
    }

    /** `pushQueue()`, its recursion flattened into a loop: read the record
        under the least key, upload it, and on the upload's callback delete
        that key, whatever the callback was told; until the store is empty.
        Nothing checks `idle` first; every assignment to it sets it. */
    method PushQueue(oracle: nat -> int) returns (log: seq<Delivery>, retries: seq<Retry>)
      requires Valid() && db != null && db.hasStore
      modifies this, db
      ensures Valid() && db == old(db) && idle
      ensures db.hasStore && db.version == old(db.version) && db.nextKey == old(db.nextKey)
      ensures db.issued == old(db.issued)
      ensures db.records == map[]
      ensures log == Schedule(old(db.records), oracle, 0)
      ensures retries == Failures(log)
    {
      idle := true;
      log, retries := [], [];
      ghost var all := Schedule(db.records, oracle, 0);
      while true
        invariant Valid() && db == old(db) && idle
        invariant db.hasStore && db.version == old(db.version) && db.nextKey == old(db.nextKey)
        invariant db.issued == old(db.issued)
        invariant log + Schedule(db.records, oracle, |log|) == all
        invariant retries == Failures(log)
        decreases |db.records.Keys|
      {
        var cursor := db.LeastKeyFrom(0);
        if cursor.None? {
          // the cursor found nothing: idle, and the drain's own callback
          assert db.records.Keys == {};
          idle := true;
          break;
        }
        var key := cursor.value;
        var item := db.records[key];
        var status := oracle(|log|);
        DrainStep(log, db.records, key, oracle, all);
        FailuresSnoc(log, Delivery(key, item, status));
        log := log + [Delivery(key, item, status)];
        if !Online.Succeeded(status) {
          retries := retries + [Retry(key, item)];
        }
        // the upload's callback, whatever it is called with
        ghost var before := db.records;
        db.Delete(key);
        assert db.records.Keys == before.Keys - {key};
        idle := true;
      }
    }

    /** A scheduled retry firing: the same upload once more, answered with
        `status`. Its callback deletes the retry's key again (a key already
        gone is no change) and starts another drain of what is queued; a
        failed retry then schedules one more retry. Without a handle (after
        `disconnect`) the callback throws in `createTransaction`, before
        `uploadBase64` reaches its `setTimeout`: nothing is deleted, no drain
        starts and no further retry is scheduled. */
    method RetryFires(r: Retry, status: int, oracle: nat -> int) returns (log: seq<Delivery>, retries: seq<Retry>)
      requires Valid() && (db != null ==> db.hasStore)
      modifies this, db
      ensures Valid() && db == old(db)
      ensures db == null ==> log == [Delivery(r.key, r.item, status)] && retries == [] && idle == old(idle)
      ensures db != null ==>
        && idle && db.hasStore && db.version == old(db.version)
        && db.nextKey == old(db.nextKey) && db.issued == old(db.issued)
        && db.records == map[]
        && log == [Delivery(r.key, r.item, status)] + Schedule(old(db.records) - {r.key}, oracle, 0)
        && retries == (if Online.Succeeded(status) then [] else [r]) + Failures(log[1..])
    {
      if db == null {
        // the callback's createTransaction throws, so the re-call is not scheduled
        log, retries := [Delivery(r.key, r.item, status)], [];
        return;
      }
      db.Delete(r.key);
      var drained, again := PushQueue(oracle);
      log := [Delivery(r.key, r.item, status)] + drained;
      assert log[1..] == drained;
      retries := (if Online.Succeeded(status) then [] else [r]) + again;
    }

    /** `connect(callback)`: `open` yields `database` or fails. On success
        the handle is set and `build` runs; its callback (which ignores its
        argument) sets `idle`, drains the queue and reports success. When
        `build` failed it has already dropped the handle, so the drain's
        first use of `db` throws and the callback is never reached. */
    method Connect(database: Database, openOk: bool, setVersionOk: bool, oracle: nat -> int)
      returns (reply: Reply, log: seq<Delivery>, retries: seq<Retry>)
      requires Valid() && database.Valid()
      modifies this, database
      ensures Valid()
      ensures !openOk ==>
        && db == null && idle == old(idle) && unchanged(database)
        && reply == Called(Some(ConnectionFailed)) && log == [] && retries == []
      ensures openOk ==> idle
      ensures openOk && (old(database.version) == DbVersion || setVersionOk) ==>
        && db == database && db.hasStore && db.version == DbVersion && db.records == map[]
        && db.nextKey == (if old(database.version) == DbVersion then old(database.nextKey) else 1)
        && db.issued == (if old(database.version) == DbVersion then old(database.issued) else {})
        && log == Schedule(old(database.records), oracle, 0)
        && retries == Failures(log)
        && reply == Called(None)
      ensures openOk && old(database.version) != DbVersion && !setVersionOk ==>
        && db == null && unchanged(database)
        && reply == NoReply && log == [] && retries == []
    {
      log, retries := [], [];
      if !openOk {
        Disconnect();
        reply := Called(Some(ConnectionFailed));
        return;
      }
      db := database;
      var built := Build(setVersionOk);
      // the callback given to build, whatever it is called with
      idle := true;
      if db == null {
        // pushQueue's createTransaction dereferences the dropped handle
        reply := NoReply;
        return;
      }
      log, retries := PushQueue(oracle);
      reply := Called(None);
    }
  }
}
