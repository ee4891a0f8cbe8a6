/**
 * `StorageManager`: saves, loads and removes keyed values through the backend its
 * `storageType` names: the `settings` object store of an IndexedDB database, a REST
 * API, or (for every other type) the browser's localStorage. The two browser stores are
 * fields of the object; what a store or the network does that the program cannot
 * control (an error event, a thrown exception, the server's reply) is a parameter.
 */
module Storage {
  import opened Wrappers
  import opened Json

  /** The defaults of `config.js`. */
  const ConfigStorageType: string := "indexeddb"
  const ConfigApiEndpoint: string := ""
  const ConfigApiTimeout: int := 5000

  const DbName: string := "WordMemoDB"
  const DbVersion: int := 1

  /** The store the key-value methods use. */
  const SettingsStore: string := "settings"

  /** The object stores the schema upgrade makes sure exist. */
  const RequiredStores: set<string> := {"wordBanks", "examRecords", "wrongWords", SettingsStore}

  /** An open connection to `WordMemoDB`, with the names of its object stores. */
  datatype Database = Database(stores: set<string>)

  /** How `indexedDB.open` ends: opened (after an upgrade or not), failed, or failed after the upgrade handler ran. */
  datatype OpenOutcome =
    | Opened(existing: set<string>, upgraded: bool)
    | OpenFailed
    | FailedAfterUpgrade(existing: set<string>)

  datatype StorageError =
    | NotInitialized     // an IndexedDB operation with no connection
    | OpenError          // the database could not be opened
    | RequestError       // the store threw, or the request's error event fired
    | NoEndpoint         // the API backend with an empty endpoint
    | NetworkError       // fetch rejected or was aborted by the timeout
    | HttpError(status: int)

  /** The server's answer to one request: none at all, or a status with the `data` of its JSON body. */
  datatype Reply = NoReply | Reply(status: int, data: Value)

  /** `response.ok`. */
  predicate IsOk(status: int) {
    200 <= status <= 299
  }

  datatype Backend = IndexedDb | Api | LocalStorage

  /** The `switch` of `save`, `load` and `remove`. */
  function BackendFor(storageType: string): Backend {
    if storageType == "indexeddb" then IndexedDb
    else if storageType == "api" then Api
    else LocalStorage
  }

  /** The stores after the `onupgradeneeded` handler: each required store is created if it is missing. */
  function UpgradeSchema(existing: set<string>): (r: set<string>)
    ensures existing <= r && RequiredStores <= r
    ensures r - existing == RequiredStores - existing
  {
    existing + RequiredStores
  }

  /** A second upgrade creates nothing: every required store is already there. */
  lemma UpgradeIdempotent(existing: set<string>)
    ensures UpgradeSchema(UpgradeSchema(existing)) == UpgradeSchema(existing)
  {
  }

  /** What the stores are after an open that reached the database's upgrade handler or not. */
  function OpenedStores(open: OpenOutcome): set<string>
    requires !open.OpenFailed?
  {
    if open.FailedAfterUpgrade? || open.upgraded then UpgradeSchema(open.existing) else open.existing
  }

  // ---------------------------------------------------------------------------
  // localStorage
  // ---------------------------------------------------------------------------

  /** What `saveToLocalStorage` writes: a string as it is, any other value as its JSON text. */
  function LocalText(c: Codec, data: Value): string {
    if data.Str? then data.text else c.stringify(data)
  }

  /** What `loadFromLocalStorage` gives for a key: null when absent, else the parsed text, else the raw text. */
  function LocalLoad(c: Codec, local: map<string, string>, key: string): Value {
    if key !in local then Null
    else match c.parse(local[key])
      case Some(v) => v
      case None => Str(local[key])
  }

  /** Saving a value and loading it back gives the value, when it is a string that is not JSON or the codec is lawful. */
  lemma LocalSaveLoad(c: Codec, local: map<string, string>, key: string, data: Value)
    requires data.Str? ==> NotJson(c, data.text)
    requires !data.Str? ==> c.parse(c.stringify(data)) == Some(data)
    ensures LocalLoad(c, local[key := LocalText(c, data)], key) == data
  {
  }

  /** A stored string that is JSON text comes back parsed: the quotes of `"\"x\""` are lost, `"12"` becomes a number. */
  lemma LocalJsonStringComesBackParsed(c: Codec, local: map<string, string>, key: string, text: string, v: Value)
    requires c.parse(text) == Some(v)
    ensures LocalLoad(c, local[key := LocalText(c, Str(text))], key) == v
  {
  }

  /** After a remove the key loads as null, and no other key's load changes. */
  lemma LocalRemoveThenLoad(c: Codec, local: map<string, string>, key: string, other: string)
    ensures LocalLoad(c, local - {key}, key) == Null
    ensures other != key ==> LocalLoad(c, local - {key}, other) == LocalLoad(c, local, other)
  {
  }

  // ---------------------------------------------------------------------------
  // IndexedDB
  // ---------------------------------------------------------------------------

  /** Whether a `settings` request can run: a rejection without a connection, a request error when the store is missing or the request fails. */
  function IdbCheck(db: Option<Database>, fault: bool): Outcome<StorageError> {
    if db.None? then Fail(NotInitialized)
    else if SettingsStore !in db.value.stores || fault then Fail(RequestError)
    else Pass
  }

  /** What `loadFromIndexedDB` resolves with: the record's `value`, or null when there is no record. */
  function IdbLoad(settings: map<string, Value>, key: string): Value {
    if key in settings then settings[key] else Null
  }

  /** A value put under a key loads back as itself, even a string of JSON text or null. */
  lemma IdbSaveLoad(settings: map<string, Value>, key: string, data: Value, other: string)
    ensures IdbLoad(settings[key := data], key) == data
    ensures other != key ==> IdbLoad(settings[key := data], other) == IdbLoad(settings, other)
  {
  }

  /** After a delete the key loads as null, and no other key's load changes. */
  lemma IdbRemoveThenLoad(settings: map<string, Value>, key: string, other: string)
    ensures IdbLoad(settings - {key}, key) == Null
    ensures other != key ==> IdbLoad(settings - {key}, other) == IdbLoad(settings, other)
  {
  }

  // ---------------------------------------------------------------------------
  // API
  // ---------------------------------------------------------------------------

  /** `saveToAPI` and `removeFromAPI`: the endpoint guard, then the reply's status. */
  function ApiWrite(endpoint: string, reply: Reply): Outcome<StorageError> {
    if endpoint == "" then Fail(NoEndpoint)
    else if reply.NoReply? then Fail(NetworkError)
    else if !IsOk(reply.status) then Fail(HttpError(reply.status))
    else Pass
  }

  /** `loadFromAPI`: the endpoint guard, then 404 as null, another failure status as an error, success as the body's `data`. */
  function ApiLoad(endpoint: string, reply: Reply): Result<Value, StorageError> {
    if endpoint == "" then Err(NoEndpoint)
    else if reply.NoReply? then Err(NetworkError)
    else if !IsOk(reply.status) then
      (if reply.status == 404 then Ok(Null) else Err(HttpError(reply.status)))
    else Ok(reply.data)
  }

  /** With no endpoint every API operation fails the same way, whatever the server would have answered. */
  lemma ApiGuard(reply: Reply, other: Reply)
    ensures ApiWrite("", reply) == ApiWrite("", other) == Fail(NoEndpoint)
    ensures ApiLoad("", reply) == ApiLoad("", other) == Err(NoEndpoint)
  {
  }

  /**
   * The outcomes of an API load with an endpoint: null exactly for a 404 or a success whose
   * data is null; an HTTP error exactly for another failure status; the data otherwise.
   */
  lemma ApiLoadOutcomes(endpoint: string, reply: Reply)
    requires endpoint != ""
    ensures ApiLoad(endpoint, reply) == Ok(Null) <==>
      reply.Reply? && (reply.status == 404 || (IsOk(reply.status) && reply.data == Null))
    ensures (ApiLoad(endpoint, reply).Err? && ApiLoad(endpoint, reply).error.HttpError?) <==>
      reply.Reply? && !IsOk(reply.status) && reply.status != 404
    ensures reply.Reply? && IsOk(reply.status) ==> ApiLoad(endpoint, reply) == Ok(reply.data)
    ensures ApiLoad(endpoint, reply).Ok? <==> ApiWrite(endpoint, reply).Pass? || (reply.Reply? && reply.status == 404)
  {
  }

  // ---------------------------------------------------------------------------
  // The manager
  // ---------------------------------------------------------------------------

  class StorageManager {
    var storageType: string
    var db: Option<Database>
    var apiEndpoint: string
    var apiTimeout: int
    /** `JSON.parse` and `JSON.stringify`. */
    const codec: Codec
    /** The browser's localStorage. */
    var local: map<string, string>
    /** The records of the database's `settings` store, value by key. */
    var settings: map<string, Value>

    /** The configured type, endpoint and timeout, each replaced by its default when falsy; no connection yet. */
    constructor(configType: string, configEndpoint: string, configTimeout: int, codec: Codec,
                local: map<string, string>, settings: map<string, Value>)
      ensures storageType == (if configType == "" then "indexeddb" else configType)
      ensures apiEndpoint == configEndpoint
      ensures apiTimeout == (if configTimeout == 0 then 5000 else configTimeout)
      ensures db == None && this.codec == codec && this.local == local && this.settings == settings
    {
      storageType := if configType == "" then "indexeddb" else configType;
      db := None;
      apiEndpoint := configEndpoint;
      apiTimeout := if configTimeout == 0 then 5000 else configTimeout;
      this.codec := codec;
      this.local := local;
      this.settings := settings;
    }

    /** `init`: opens the database only for the IndexedDB type; any other type resolves at once. */
    method Init(open: OpenOutcome) returns (r: Outcome<StorageError>)
      modifies this`db
      ensures storageType != "indexeddb" ==> r == Pass && db == old(db)
      ensures storageType == "indexeddb" ==> (r == Pass <==> open.Opened?)
      ensures storageType == "indexeddb" ==> r == Pass || r == Fail(OpenError)
      ensures storageType == "indexeddb" && !open.OpenFailed? ==> db == Some(Database(OpenedStores(open)))
      ensures open.OpenFailed? ==> db == old(db)
    {
      if storageType == "indexeddb" {
        r := InitIndexedDB(open);
      } else {
        r := Pass;
      }
    }

    /** `initIndexedDB`: the connection is kept once the upgrade handler or the success handler has run. */
    method InitIndexedDB(open: OpenOutcome) returns (r: Outcome<StorageError>)
      modifies this`db
      ensures r == if open.Opened? then Pass else Fail(OpenError)
      ensures db == if open.OpenFailed? then old(db) else Some(Database(OpenedStores(open)))
    {
      match open
      case OpenFailed =>
        r := Fail(OpenError);
      case FailedAfterUpgrade(existing) =>
        db := Some(Database(UpgradeSchema(existing)));
        r := Fail(OpenError);
      case Opened(existing, upgraded) =>
        if upgraded {
          db := Some(Database(UpgradeSchema(existing)));
        } else {
          db := Some(Database(existing));
        }
        r := Pass;
    }

    /** What `load` resolves with, or its error, in the current state. */
    function LoadResult(key: string, fault: bool, reply: Reply): Result<Value, StorageError>
      reads this
    {
      match BackendFor(storageType)
      case IndexedDb =>
        if IdbCheck(db, fault).Fail? then Err(IdbCheck(db, fault).error) else Ok(IdbLoad(settings, key))
      case Api => ApiLoad(apiEndpoint, reply)
      case LocalStorage => if fault then Err(RequestError) else Ok(LocalLoad(codec, local, key))
    }

    /** The outcome of `save` or `remove` in the current state. */
    function WriteResult(fault: bool, reply: Reply): Outcome<StorageError>
      reads this
    {
      match BackendFor(storageType)
      case IndexedDb => IdbCheck(db, fault)
      case Api => ApiWrite(apiEndpoint, reply)
      case LocalStorage => if fault then Fail(RequestError) else Pass
    }

    /** localStorage after `save`: written only by the localStorage backend, and only when the store does not throw. */
    function LocalAfterSave(prior: map<string, string>, key: string, data: Value, fault: bool): map<string, string>
      reads this
    {
      if BackendFor(storageType) == LocalStorage && !fault then prior[key := LocalText(codec, data)] else prior
    }

    /** The `settings` store after `save`: written only by the IndexedDB backend, and only when the request succeeds. */
    function SettingsAfterSave(prior: map<string, Value>, key: string, data: Value, fault: bool): map<string, Value>
      reads this
    {
      if BackendFor(storageType) == IndexedDb && IdbCheck(db, fault).Pass? then prior[key := data] else prior
    }

    function LocalAfterRemove(prior: map<string, string>, key: string, fault: bool): map<string, string>
      reads this
    {
      if BackendFor(storageType) == LocalStorage && !fault then prior - {key} else prior
    }

    function SettingsAfterRemove(prior: map<string, Value>, key: string, fault: bool): map<string, Value>
      reads this
    {
      if BackendFor(storageType) == IndexedDb && IdbCheck(db, fault).Pass? then prior - {key} else prior
    }

    /** `save`: dispatches on the storage type; `fault` is a store failure, `reply` the server's answer. */
    method Save(key: string, data: Value, fault: bool, reply: Reply) returns (r: Outcome<StorageError>)
      modifies this`local, this`settings
      ensures r == WriteResult(fault, reply)
      ensures local == LocalAfterSave(old(local), key, data, fault)
      ensures settings == SettingsAfterSave(old(settings), key, data, fault)
    {
      match BackendFor(storageType)
      case IndexedDb => r := SaveToIndexedDB(key, data, fault);
      case Api => r := SaveToApi(key, data, reply);
      case LocalStorage => r := SaveToLocalStorage(key, data, fault);
    }

    /** `load`: dispatches on the storage type. */
    method Load(key: string, fault: bool, reply: Reply) returns (r: Result<Value, StorageError>)
      ensures r == LoadResult(key, fault, reply)
    {
      match BackendFor(storageType)
      case IndexedDb => r := LoadFromIndexedDB(key, fault);
      case Api => r := LoadFromApi(key, reply);
      case LocalStorage => r := LoadFromLocalStorage(key, fault);
    }

    /** `remove`: dispatches on the storage type. */
    method Remove(key: string, fault: bool, reply: Reply) returns (r: Outcome<StorageError>)
      modifies this`local, this`settings
      ensures r == WriteResult(fault, reply)
      ensures local == LocalAfterRemove(old(local), key, fault)
      ensures settings == SettingsAfterRemove(old(settings), key, fault)
    {
      match BackendFor(storageType)
      case IndexedDb => r := RemoveFromIndexedDB(key, fault);
      case Api => r := RemoveFromApi(key, reply);
      case LocalStorage => r := RemoveFromLocalStorage(key, fault);
    }

    /** `saveToLocalStorage`: the value's text under the key, unless the store throws. */
    method SaveToLocalStorage(key: string, data: Value, fault: bool) returns (r: Outcome<StorageError>)
      modifies this`local
      ensures r == if fault then Fail(RequestError) else Pass
      ensures local == if fault then old(local) else old(local)[key := LocalText(codec, data)]
    {
      if fault {
        return Fail(RequestError);
      }
      var serializedData := if data.Str? then data.text else codec.stringify(data);
      local := local[key := serializedData];
      r := Pass;
    }

    /** `loadFromLocalStorage`: null for a missing key, else the parsed text, else the raw text. */
    method LoadFromLocalStorage(key: string, fault: bool) returns (r: Result<Value, StorageError>)
      ensures fault ==> r == Err(RequestError)
      ensures !fault && key !in local ==> r == Ok(Null)
      ensures !fault && key in local && !NotJson(codec, local[key]) ==> r == Ok(codec.parse(local[key]).value)
      ensures !fault && key in local && NotJson(codec, local[key]) ==> r == Ok(Str(local[key]))
    {
      if fault {
        return Err(RequestError);
      }
      if key !in local {
        return Ok(Null);
      }
      var data := local[key];
      match codec.parse(data)
      case Some(v) => r := Ok(v);
      case None => r := Ok(Str(data));
    }

    /** `removeFromLocalStorage`. */
    method RemoveFromLocalStorage(key: string, fault: bool) returns (r: Outcome<StorageError>)
      modifies this`local
      ensures r == if fault then Fail(RequestError) else Pass
      ensures local == if fault then old(local) else old(local) - {key}
    {
      if fault {
        return Fail(RequestError);
      }
      local := local - {key};
      r := Pass;
    }

    /** `saveToIndexedDB`: puts the record `{key, value}` into `settings`. */
    method SaveToIndexedDB(key: string, data: Value, fault: bool) returns (r: Outcome<StorageError>)
      modifies this`settings
      ensures db.None? ==> r == Fail(NotInitialized)
      ensures db.Some? ==> (r == Pass <==> SettingsStore in db.value.stores && !fault)
      ensures r.Fail? ==> settings == old(settings)
      ensures r.Pass? ==> settings == old(settings)[key := data]
      ensures r == IdbCheck(db, fault)
    {
      if db.None? {
        return Fail(NotInitialized);
      }
      if SettingsStore !in db.value.stores || fault {
        return Fail(RequestError);
      }
      settings := settings[key := data];
      r := Pass;
    }

    /** `loadFromIndexedDB`: the stored record's value, or null. */
    method LoadFromIndexedDB(key: string, fault: bool) returns (r: Result<Value, StorageError>)
      ensures db.None? ==> r == Err(NotInitialized)
      ensures db.Some? && (SettingsStore !in db.value.stores || fault) ==> r == Err(RequestError)
      ensures IdbCheck(db, fault).Pass? ==> r == Ok(if key in settings then settings[key] else Null)
    {
      if db.None? {
        return Err(NotInitialized);
      }
      if SettingsStore !in db.value.stores || fault {
        return Err(RequestError);
      }
      r := Ok(IdbLoad(settings, key));
    }

    /** `removeFromIndexedDB`: deletes the key's record from `settings`. */
    method RemoveFromIndexedDB(key: string, fault: bool) returns (r: Outcome<StorageError>)
      modifies this`settings
      ensures r == IdbCheck(db, fault)
      ensures db.None? ==> r == Fail(NotInitialized)
      ensures r.Fail? ==> settings == old(settings)
      ensures r.Pass? ==> settings == old(settings) - {key}
    {
      if db.None? {
        return Fail(NotInitialized);
      }
      if SettingsStore !in db.value.stores || fault {
        return Fail(RequestError);
      }
      settings := settings - {key};
      r := Pass;
    }

    /** `saveToAPI`: refused without an endpoint, before any request; then the reply's status decides. */
    method SaveToApi(key: string, data: Value, reply: Reply) returns (r: Outcome<StorageError>)
      ensures apiEndpoint == "" ==> r == Fail(NoEndpoint)
      ensures apiEndpoint != "" ==> (r == Pass <==> reply.Reply? && IsOk(reply.status))
      ensures r == ApiWrite(apiEndpoint, reply)
    {
      if apiEndpoint == "" {
        return Fail(NoEndpoint);
      }
      r := Respond(reply);
    }

    /** `loadFromAPI`: refused without an endpoint; 404 is null, another failure status an error, success the body's data. */
    method LoadFromApi(key: string, reply: Reply) returns (r: Result<Value, StorageError>)
      ensures apiEndpoint == "" ==> r == Err(NoEndpoint)
      ensures apiEndpoint != "" && reply.Reply? && reply.status == 404 ==> r == Ok(Null)
      ensures r == ApiLoad(apiEndpoint, reply)
    {
      if apiEndpoint == "" {
        return Err(NoEndpoint);
      }
      if reply.NoReply? {
        return Err(NetworkError);
      }
      if !IsOk(reply.status) {
        if reply.status == 404 {
          return Ok(Null);
        }
        return Err(HttpError(reply.status));
      }
      r := Ok(reply.data);
    }

    /** `removeFromAPI`: refused without an endpoint; then the reply's status decides. */
    method RemoveFromApi(key: string, reply: Reply) returns (r: Outcome<StorageError>)
      ensures apiEndpoint == "" ==> r == Fail(NoEndpoint)
      ensures apiEndpoint != "" ==> (r == Pass <==> reply.Reply? && IsOk(reply.status))
      ensures r == ApiWrite(apiEndpoint, reply)
    {
      if apiEndpoint == "" {
        return Fail(NoEndpoint);
      }
      r := Respond(reply);
    }

    /** The part of `saveToAPI` and `removeFromAPI` after the request: a rejected fetch or a failure status is an error. */
    method Respond(reply: Reply) returns (r: Outcome<StorageError>)
      ensures r.Pass? <==> reply.Reply? && IsOk(reply.status)
      ensures reply.Reply? && !IsOk(reply.status) ==> r == Fail(HttpError(reply.status))
      ensures reply.NoReply? ==> r == Fail(NetworkError)
    {
      if reply.NoReply? {
        return Fail(NetworkError);
      }
      if !IsOk(reply.status) {
        return Fail(HttpError(reply.status));
      }
      r := Pass;
    }
  }
}
