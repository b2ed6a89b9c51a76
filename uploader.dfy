/** The `OfflineUploader` object: its event registry (a table from event
    type to the ordered list of (listener, context) pairs registered with
    `on`, and `fire`, which calls them in order until one returns exactly
    `false`), and `connectStorage`, the one-time choice of a storage backend
    from the platform's capabilities together with what the callback and the
    `offline` flag end up as once the backend's own `connect` has replied. */
module Uploader {
  import opened Values

  /** The eleven event types the table is created with. */
  const EventTypes: set<string> := {
    "beforequeue", "queuesuccess", "queuefailure", "queueempty",
    "uploading", "uploadsuccess", "uploadfailure",
    "dragenter", "dragover", "dragleave", "drop"
  }

  const UnknownEventType: string := "Unknown event type"

  /** A listener function, known by identity only. */
  type Listener = nat

  /** The `this` a listener is called with: the uploader itself, or the
      context given at registration. */
  datatype Ctx = Uploader | Given(value: JsValue)

  datatype Registration = Registration(listener: Listener, ctx: Ctx)

  type Table = map<string, seq<Registration>>

  /** An omitted (undefined) context means the uploader; any other value,
      `null` included, is kept as given. */
  function ContextFor(ctx: JsValue): (r: Ctx)
    ensures r == Uploader <==> ctx == Undefined
    ensures ctx != Undefined ==> r == Given(ctx)
  {
    if ctx == Undefined then Uploader else Given(ctx)
  }

  /** The result of a `fire` that did not throw: whether no listener returned
      `false`, and the listeners that were called, in the order of the calls. */
  datatype Dispatch = Dispatch(passed: bool, called: seq<Registration>)

  datatype Fired = Returned(dispatch: Dispatch) | Thrown(message: string)

  /** The test `listener(...) !== false`: only the boolean `false` stops. */
  predicate Continues(v: JsValue)
  {
    v != Bool(false)
  }

  /** `Array.prototype.every` over `list`, starting at position `i`; the
      listener at position `j` returns `ret(j)`. Gives whether every call
      continued and how many listeners were called. */
  function Every(list: seq<Registration>, ret: nat -> JsValue, i: nat): (r: (bool, nat))
    requires i <= |list|
    decreases |list| - i
    ensures i + r.1 <= |list|
    ensures r.0 <==> forall j :: i <= j < |list| ==> Continues(ret(j))
    ensures r.0 ==> i + r.1 == |list|
    ensures !r.0 ==> r.1 > 0 && !Continues(ret(i + r.1 - 1))
    ensures forall j :: i <= j < i + r.1 - 1 ==> Continues(ret(j))
  {
    if i == |list| then (true, 0)
    else if !Continues(ret(i)) then (false, 1)
    else
      var rest := Every(list, ret, i + 1);
      (rest.0, rest.1 + 1)
  }

  /** `fire(type, detail)`: throws for a type the table does not hold;
      otherwise calls that type's listeners in registration order and stops
      after the first one that returns `false`. */
  function Fire(table: Table, eventType: string, ret: nat -> JsValue): (r: Fired)
    ensures r.Thrown? <==> eventType !in table
    ensures r.Thrown? ==> r.message == UnknownEventType
    ensures r.Returned? ==>
      var list := table[eventType];
      var n := |r.dispatch.called|;
      && n <= |list|
      && r.dispatch.called == list[..n]
      && (r.dispatch.passed <==> forall j :: 0 <= j < |list| ==> Continues(ret(j)))
      && (r.dispatch.passed ==> n == |list|)
      && (!r.dispatch.passed ==> n > 0 && !Continues(ret(n - 1)))
      && (forall j :: 0 <= j < n - 1 ==> Continues(ret(j)))
  {
    if eventType !in table then Thrown(UnknownEventType)
    else
      var list := table[eventType];
      var e := Every(list, ret, 0);
      Returned(Dispatch(e.0, list[..e.1]))
  }

  /** The registry as the uploader object holds it. */
  class OfflineUploader {
    var listeners: Table

    ghost predicate Valid()
      reads this
    {
      listeners.Keys == EventTypes
    }

    /** The table starts with an empty list for each known event type. */
    constructor ()
      ensures Valid()
      ensures forall t :: t in EventTypes ==> listeners[t] == []
    {
      listeners := map t | t in EventTypes :: [];
    }

    /** `on(type, listener, ctx)`: appends the pair to the end of that type's
        list; for any other type, throws and changes nothing. */
    method On(eventType: string, listener: Listener, ctx: JsValue) returns (thrown: Option<string>)
      requires Valid()
      modifies this
      ensures Valid()
      ensures eventType in EventTypes ==>
        && thrown == None
        && listeners == old(listeners)[eventType := old(listeners)[eventType] + [Registration(listener, ContextFor(ctx))]]
      ensures eventType !in EventTypes ==>
        thrown == Some(UnknownEventType) && listeners == old(listeners)
    {
      if eventType in listeners {
        listeners := listeners[eventType := listeners[eventType] + [Registration(listener, ContextFor(ctx))]];
        thrown := None;
      } else {
        thrown := Some(UnknownEventType);
      }
    }
  }

  /** What `on` followed by `fire` of the same type gives: the new listener is
      called last, and only when every earlier one continued; the dispatch
      passes iff the earlier ones passed and the new one does not return
      `false`. */
  lemma FireAfterOn(table: Table, eventType: string, reg: Registration, ret: nat -> JsValue)
    requires eventType in table
    ensures
      var before := Fire(table, eventType, ret).dispatch;
      var after := Fire(table[eventType := table[eventType] + [reg]], eventType, ret).dispatch;
      && (after.passed <==> before.passed && Continues(ret(|table[eventType]|)))
      && (before.passed ==> after.called == table[eventType] + [reg])
      && (!before.passed ==> after.called == before.called)
  {
  }

  datatype Backend = IndexedDBBackend | WebSQLBackend

  /** The feature tests of the host: `INDEXEDDB_SUPPORT` and `WEBSQL_SUPPORT`. */
  datatype Capabilities = Capabilities(indexedDB: bool, webSQL: bool)

  const NoStorage: string := "No storage available"

  /** Keeps a storage that exists; otherwise IndexedDB when available, then
      Web SQL, then none. */
  function ChooseStorage(existing: Option<Backend>, caps: Capabilities): (r: Option<Backend>)
    ensures existing.Some? ==> r == existing
    ensures existing.None? ==> (r == Some(IndexedDBBackend) <==> caps.indexedDB)
    ensures existing.None? ==> (r == Some(WebSQLBackend) <==> !caps.indexedDB && caps.webSQL)
    ensures r == None <==> existing.None? && !caps.indexedDB && !caps.webSQL
  {
    if existing.Some? then existing
    else if caps.indexedDB then Some(IndexedDBBackend)
    else if caps.webSQL then Some(WebSQLBackend)
    else None
  }

  /** The uploader's state after `connectStorage(callback)`. */
  datatype Connected = Connected(storage: Option<Backend>, offline: bool, reply: Reply)

  /** `connectStorage(callback)`, with `backendReply` what the chosen
      backend's `connect` called its callback with. Both backends have a
      `connect`, so a chosen storage is always connected. An error turns
      offline mode off and is passed on; with no storage the callback gets
      `'No storage available'`. */
  function ConnectStorage(existing: Option<Backend>, caps: Capabilities, offline: bool, backendReply: Reply): (r: Connected)
    ensures r.storage == ChooseStorage(existing, caps)
    ensures r.storage.None? ==> r.reply == Called(Some(NoStorage)) && r.offline == offline
    ensures r.storage.Some? ==> r.reply == backendReply
    ensures r.storage.Some? ==> (r.offline <==> offline && !backendReply.IsError())
  {
    var storage := ChooseStorage(existing, caps);
    if storage.None? then Connected(storage, offline, Called(Some(NoStorage)))
    else if backendReply.IsError() then Connected(storage, false, backendReply)
    else Connected(storage, offline, backendReply)
  }

  /** The backend is chosen once: connecting again keeps it, whatever the
      capabilities then say and whatever the first connect replied. */
  lemma ChoiceIsKept(existing: Option<Backend>, caps: Capabilities, caps': Capabilities,
                     offline: bool, first: Reply, second: Reply)
    requires ConnectStorage(existing, caps, offline, first).storage.Some?
    ensures
      var r := ConnectStorage(existing, caps, offline, first);
      ConnectStorage(r.storage, caps', r.offline, second).storage == r.storage
  {
  }
}
