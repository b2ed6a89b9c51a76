# Offline Uploader — a Dafny model of its upload queue

Offline Uploader is a browser component that queues files for upload in a
local database and pushes them to the server when it can. This project models
its core in Dafny and proves properties of the model:

- **The IndexedDB queue** (`IndexedDB`). `Database` is the persisted database:
  its schema version, whether the auto-increment object store exists, the
  records by key, and the key generator (which starts at 1).
  `IndexedDBStorage` is the object the uploader holds. It has the `db` handle
  and the `idle` flag, and the operations `connect`, `disconnect`, `build`,
  `store` and `pushQueue`. The drain in `pushQueue` calls itself once per
  record; here it is a loop. Each pass reads the least key, uploads that
  record, and deletes that key when the upload's callback fires.
- **The upload** (`Online`). `uploadBase64` builds the form body and tests the
  response status. On failure it calls the callback with an error and then
  re-issues the identical call. Server responses arrive as a sequence of
  statuses, and `encodeURIComponent` is a function parameter.
- **The uploader object** (`Uploader`). `OfflineUploader` holds the event
  registry: the table from event type to (listener, context) lists, with
  `on` and `fire`. The values listeners return are an input. The module also
  models the backend choice in `connectStorage`.
- **The file name** (`FileNames`): the file-name expression of
  `beginUploading`.

The model follows the code wherever the code and the intended design differ:

- A failed upload still deletes its record. The drain's upload callback
  ignores its error argument, so `PushQueue` empties the store whatever the
  statuses are. Each failed first attempt leaves a `Retry`. When that retry
  fires (`RetryFires`), its callback deletes the same key a second time,
  which changes nothing, and then starts another drain. If the handle has
  been dropped by then, that callback throws, and the retry schedules no
  further retry.
- `idle` is `false` only from construction until the first `connect` whose
  `open` succeeds. Every
  later assignment sets it to `true`, and nothing ever tests it before a
  drain. So there is no guard against two drains running at once.
- The success handler in `store` is not bound to the storage, so its
  `this.idle` is undefined there. A store therefore never starts a drain:
  `Store` changes only the database. Without a handle (before a successful
  `connect`, or after `disconnect`) `store` throws before any callback.
- `build` reports a failure, but the callback `connect` gives it ignores the
  report. That callback sets `idle` and then calls `pushQueue` on a handle
  `build` has already dropped, so it throws before `connect`'s own callback
  is reached (`Connect` then returns `NoReply`).
- The status test is `status < 300`, so status 0 passes too (the status of a
  request that got no response at all). It also counts as success.

Callbacks are sequential steps here. An engine outcome the code reacts to
(the database opening, `setVersion` succeeding, an `add` committing, a
response status) is a parameter of the method that reacts to it.

## Model

| member | source | states |
|---|---|---|
| `Uploader.OfflineUploader.constructor` | src/offline-uploader.js:210-222 | the table holds exactly the eleven known event types, each with an empty list |
| `Uploader.OfflineUploader.On` | src/offline-uploader.js:259-268 | a known type gets `(listener, ctx)` appended at the end of its list, with an undefined ctx replaced by the uploader; any other type throws `'Unknown event type'` and leaves the table unchanged; the table keeps exactly the eleven types |
| `Uploader.ContextFor` | src/offline-uploader.js:263 | a listener's `this` is the uploader exactly when the given context is undefined, and the given value otherwise (`null` included) |
| `Uploader.Every` | src/offline-uploader.js:366-368 | `every` from position i: true iff no listener from i on returns exactly `false` (the test `Continues`: any other value, `undefined` included, continues); it stops right after the first that does; all calls before that one continued |
| `Uploader.Fire` | src/offline-uploader.js:361-369 | throws `'Unknown event type'` iff the type is not in the table; otherwise the called listeners are a prefix of the list in registration order; the result is true iff no listener returns `false` (so an empty list gives true); all are called when it is true; the last one called returned `false` when it is false |
| `Uploader.FireAfterOn` | src/offline-uploader.js:361-369 | after `on`, `fire` of that type passes iff it passed before and the new listener does not return `false`; the new listener is called, last, exactly when all earlier ones continued |
| `FileNames.LastSeparator` | src/offline-uploader.js:545 | gives the position of a `/` or `\` with no separator after it, or none when the value has no separator |
| `FileNames.FileName` | src/offline-uploader.js:545-546 | the name is a suffix of the input's value; when it is not the whole value, it is non-empty, preceded by a `/` or `\`, and holds no `/`, `\` or `\|` |
| `FileNames.FileNameOfMatch` | src/offline-uploader.js:545-546 | where the expression matches with its separator at position i, the name is everything after position i |
| `FileNames.FileNameMatchesRegex` | src/offline-uploader.js:545-546 | where `(\\|\/)([^\\|\/]+)$` matches, the name is its second group; where it does not match, the name is the whole value |
| `Online.Respond` | src/offline-uploader.js:579-590 | the callback gets `null` iff the status is below 300 (`Succeeded`), and the auto-retry error otherwise |
| `Online.ParseBodyOfBody` | src/offline-uploader.js:568-571 | the body `Body` builds, `name=<enc name>&data=<enc data>`, gives back both encoded fields when split at its first `&`, provided the encoded name holds no `&` |
| `Online.UploadBase64` | src/offline-uploader.js:568-590 | every attempt sends the same body and calls the callback once, with the reply its status gives; every attempt before the last one failed; when the responses have not run out, the last attempt succeeded, so there is at most one success and no retry after it |
| `KeyOrder.MinKey` | src/offline-uploader.js:686-690 | the least key of a non-empty key set lies in the set and is at most every key in it |
| `KeyOrder.AscendingContents` | src/offline-uploader.js:686-690 | the cursor order lists every key of the store once and no other key |
| `KeyOrder.AscendingSorted` | src/offline-uploader.js:686-690 | the cursor order strictly increases |
| `KeyOrder.AscendingUnique` | src/offline-uploader.js:686-690 | every strictly increasing listing of exactly the store's keys is the cursor order |
| `KeyOrder.AscendingAppend` | src/offline-uploader.js:661-664 | a key above every present key comes after all of them in the cursor order |
| `KeyOrder.AscendingRemoveMin` | src/offline-uploader.js:690-701 | removing the least key removes the head of the cursor order and leaves the rest in order |
| `IndexedDB.DrainStep` | src/offline-uploader.js:693-701 | one drain step moves the least record's upload from the uploads still to come onto the log |
| `IndexedDB.FailuresOfLog` | src/offline-uploader.js:585-590 | the retries a run of uploads leaves (`Failures`) are its failed uploads: each upload with status 300 or more gives a retry of its key and record, every retry comes from one, and there are none exactly when every upload succeeded |
| `IndexedDB.ScheduleFollowsKeyOrder` | src/offline-uploader.js:683-714 | the drain schedule (`Schedule`) makes one upload per record, in cursor order; each upload carries the record stored under its key and the status for its position |
| `IndexedDB.ScheduleIsFifo` | src/offline-uploader.js:683-714 | the keys a drain uploads strictly increase, and every queued key is uploaded |
| `IndexedDB.StoreThenDrain` | src/offline-uploader.js:659-714 | a record stored under the generator's next key is uploaded after every record queued before it |
| `IndexedDB.Database.constructor` | src/offline-uploader.js:623 | a database that `open` has just created has no version, no object store and no records |
| `IndexedDB.Database.Upgrade` | src/offline-uploader.js:729-733 | a successful `setVersion` followed by `createObjectStore` leaves version `'1.0'` and an empty store whose key generator starts at 1 and has issued no key |
| `IndexedDB.Database.Add` | src/offline-uploader.js:661-664 | the record goes under the generator's next key, which is above every key the generator has issued, deleted ones included; nothing else changes |
| `IndexedDB.Database.Delete` | src/offline-uploader.js:699 | exactly that key is removed, and a key that is absent changes nothing |
| `IndexedDB.Database.LeastKeyFrom` | src/offline-uploader.js:686-690 | the cursor over `leftBound(lower)` yields the least key at or above `lower`, or nothing exactly when there is no such key |
| `IndexedDB.IndexedDBStorage.constructor` | src/offline-uploader.js:603-607 | a new storage is not idle and has no handle |
| `IndexedDB.IndexedDBStorage.Disconnect` | src/offline-uploader.js:645-650 | the handle is dropped; the persisted database and `idle` are untouched, so a second call changes nothing |
| `IndexedDB.IndexedDBStorage.Build` | src/offline-uploader.js:721-742 | at version `'1.0'` nothing changes and the callback gets `null`; otherwise a successful `setVersion` creates the empty store, and a failed one drops the handle and reports `'Database build failed'` |
| `IndexedDB.IndexedDBStorage.Store` | src/offline-uploader.js:659-676 | without a handle it throws and the callback is never called; otherwise a committed add puts exactly one `{name, data}` record under a key above every key the store has ever issued and reports `null`, and a failed one adds nothing and reports `'Failed to store the item'`; `idle` and the handle are left alone and no drain starts |
| `IndexedDB.IndexedDBStorage.PushQueue` | src/offline-uploader.js:683-714 | it sets `idle` and does not test it; its uploads are exactly the drain schedule of the records it started with; the store ends empty, failed uploads included; each failed upload leaves one retry; the version and the key generator are unchanged |
| `IndexedDB.IndexedDBStorage.RetryFires` | src/offline-uploader.js:585-588 | the retried upload is made once with its status; with a handle, its callback deletes the key again (no change when the key is already gone) and drains what is queued, and a failed retry schedules one more retry; without a handle the callback throws before that, so nothing is deleted, no drain starts and no retry is scheduled |
| `IndexedDB.IndexedDBStorage.Connect` | src/offline-uploader.js:621-640 | a failed open drops the handle and reports `'Database connection failed'`; a successful open with build done sets the handle and `idle`, drains the persisted records in key order and reports `null`, and the key generator goes on from where it was (or starts at 1 when build made the store); when build fails, `idle` is set and the callback is never called |
| `Uploader.ChooseStorage` | src/offline-uploader.js:378-384 | an existing storage is kept; otherwise IndexedDB is chosen iff it is supported, Web SQL iff only it is supported, and nothing iff neither is |
| `Uploader.ConnectStorage` | src/offline-uploader.js:377-402 | with no storage the callback gets `'No storage available'`; otherwise it gets the backend's own reply; `offline` ends false iff it was false or the backend reported an error |
| `Uploader.ChoiceIsKept` | src/offline-uploader.js:378-384 | once a storage is chosen, connecting again keeps it, whatever the capabilities then are |

## Left out

- The DOM and UI glue is not modelled: `init`/`destroy`, `enable`/`disable` and the class-name rewrite, `label`, `confirm`, the DOM and drag-and-drop listeners, the iframe classic upload, and `upload`/`uploadFiles` with `FileReader`.
- The XHR transport and the 5000 ms delay before a retry are not modelled. A retry is the next response in the status sequence (`UploadBase64`) or a separate step (`RetryFires`).
- `encodeURIComponent` is a function parameter. That it never emits `&` is stated where it is needed (`ParseBodyOfBody`).
- The IndexedDB engine internals are not modelled: transactions, request objects and their events, key ranges, `setVersion` as a request, and `db.close()`. A request that fails is modelled only where the code handles the failure (`open`, `setVersion`, `add`). The failure of the cursor request and of `delete` is not modelled: the first only sets `idle`, and the second has no handler and halts the drain.
- The key generator's behaviour when an `add` is aborted is not modelled. A failed `add` leaves the generator as it was.
- `createObjectStore` on a store that already exists is not modelled. In this model the store exists exactly when the version is `'1.0'`, so `build` never creates a second one.
- A `connect` on a storage that is already connected replaces the handle without closing the old one. The model keeps only the new handle.
- The Web SQL backend is not modelled. Its behaviour lives in the SQL engine, and as written it cannot work: its `build` is never called, a version mismatch never calls back, it binds the table name as a SQL parameter, it passes the callback in the data slot of `uploadBase64`, and its `SELECT` has no `ORDER BY`. `Uploader.ChooseStorage` models only the choice of it.
- Races between asynchronous callbacks are not modelled, for instance a `store` during a drain, or a retry firing while another drain runs. Each callback is a sequential step.
- The `typeof callback === 'function'` tests are not modelled: callbacks are always supplied. The completion callback of `pushQueue` is called once, when the store is found empty, and this is the return of `PushQueue`.
- Uploader.Fire: a listener that throws makes `every`, and so `fire`, throw; listeners are modelled by the values they return, so this is not modelled.
- `onfailure` handlers (lines 634, 672 and 738 of src/offline-uploader.js) are not called by an IndexedDB engine that follows the standard, which dispatches `error` events. The branches where `open`, `setVersion` or an `add` fail (`openOk`, `setVersionOk`, `commitOk` false) model an engine that does call `onfailure`; with a standard engine those requests would never call back at all.
- Uploader.Fire: every event type outside the table is modelled as throwing `'Unknown event type'`. For a name the table inherits from `Object.prototype` (such as `toString`), `fire` actually throws a `TypeError` from calling `every`.
- The interface stubs, `_bind` and the feature-detection constants are not modelled. The capabilities are an input to `Uploader.ChooseStorage`.
