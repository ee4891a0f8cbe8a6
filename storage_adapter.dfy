/**
 * The storage adapter: a localStorage-like interface over the one `StorageManager`.
 * Every call first makes sure the manager is initialised, falling back for good to
 * localStorage when initialisation fails; then it converts values at the boundary and
 * swallows every error.
 */
module StorageAdapter {
  import opened Wrappers
  import opened Json
  import opened Storage

  /** What `getItem` returns for a loaded value: null as null, a string as it is, anything else as JSON text. */
  function Normalise(c: Codec, v: Value): (r: Option<string>)
    ensures r.None? <==> v == Null
  {
    match v
    case Null => None
    case Str(s) => Some(s)
    case _ => Some(c.stringify(v))
  }

  /** What `getItem` returns for a load: its normalised value, or null on any error. */
  function GetResult(c: Codec, loaded: Result<Value, StorageError>): Option<string> {
    if loaded.Err? then None else Normalise(c, loaded.value)
  }

  /** What `setItem` hands to the manager: a string that parses becomes its value; anything else is left as it is. */
  function ToSave(c: Codec, value: Value): (r: Value)
    ensures !value.Str? ==> r == value
    ensures value.Str? && NotJson(c, value.text) ==> r == value
  {
    if value.Str? then
      match c.parse(value.text)
      case Some(v) => v
      case None => value
    else value
  }

  /** Through localStorage, a string that is not JSON text comes back from `getItem` exactly as `setItem` was given it. */
  lemma LocalRoundTrip(c: Codec, local: map<string, string>, key: string, s: string)
    requires NotJson(c, s)
    ensures Normalise(c, LocalLoad(c, local[key := LocalText(c, ToSave(c, Str(s)))], key)) == Some(s)
  {
    LocalSaveLoad(c, local, key, Str(s));
  }

  /** Through IndexedDB, likewise: the string is stored as a string and read back unchanged. */
  lemma IdbRoundTrip(c: Codec, settings: map<string, Value>, key: string, s: string)
    requires NotJson(c, s)
    ensures Normalise(c, IdbLoad(settings[key := ToSave(c, Str(s))], key)) == Some(s)
  {
  }

  /**
   * A string that is JSON text of anything but a string comes back, through either browser
   * store, as the canonical JSON text of its value: the same value, not always the same text.
   */
  lemma JsonTextRoundTrip(c: Codec, local: map<string, string>, settings: map<string, Value>, key: string, s: string, v: Value)
    requires Lawful(c)
    requires c.parse(s) == Some(v) && !v.Str? && v != Null
    ensures Normalise(c, LocalLoad(c, local[key := LocalText(c, ToSave(c, Str(s)))], key)) == Some(c.stringify(v))
    ensures Normalise(c, IdbLoad(settings[key := ToSave(c, Str(s))], key)) == Some(c.stringify(v))
    ensures c.parse(c.stringify(v)) == c.parse(s)
  {
    LocalSaveLoad(c, local, key, v);
  }

  /**
   * The JSON text of a string comes back without its quotes: `setItem(k, "\"x\"")`
   * followed by `getItem(k)` gives `x`, through either browser store.
   */
  lemma QuotedStringLosesQuotes(c: Codec, local: map<string, string>, settings: map<string, Value>, key: string, s: string, t: string)
    requires c.parse(s) == Some(Str(t)) && NotJson(c, t)
    ensures Normalise(c, LocalLoad(c, local[key := LocalText(c, ToSave(c, Str(s)))], key)) == Some(t)
    ensures Normalise(c, IdbLoad(settings[key := ToSave(c, Str(s))], key)) == Some(t)
  {
    LocalSaveLoad(c, local, key, Str(t));
  }

  /** The text `null` is stored as null and read back as a missing key. */
  lemma NullTextReadsAsMissing(c: Codec, local: map<string, string>, settings: map<string, Value>, key: string)
    requires Lawful(c) && c.parse("null") == Some(Null)
    ensures Normalise(c, IdbLoad(settings[key := ToSave(c, Str("null"))], key)) == None
    ensures Normalise(c, LocalLoad(c, local[key := LocalText(c, ToSave(c, Str("null")))], key)) == None
  {
    LocalSaveLoad(c, local, key, Null);
  }

  class Adapter {
    /** The shared `storageManager` instance. */
    const manager: StorageManager
    var isInitialized: bool

    constructor(manager: StorageManager)
      ensures this.manager == manager && !isInitialized
    {
      this.manager := manager;
      isInitialized := false;
    }

    /**
     * What one `initStorage` does: nothing once initialised; otherwise `init` sets the flag
     * when it resolves, and a rejection switches the manager to localStorage instead.
     */
    twostate predicate InitStep(open: OpenOutcome)
      reads this, manager
    {
      if old(isInitialized) then
        isInitialized && manager.storageType == old(manager.storageType) && manager.db == old(manager.db)
      else if old(manager.storageType) != "indexeddb" then
        isInitialized && manager.storageType == old(manager.storageType) && manager.db == old(manager.db)
      else
        && (isInitialized <==> open.Opened?)
        && manager.storageType == (if open.Opened? then "indexeddb" else "localstorage")
        && manager.db == (if open.OpenFailed? then old(manager.db) else Some(Database(OpenedStores(open))))
    }

    /** `initStorage`: lazy initialisation with a permanent fallback to localStorage. */
    method InitStorage(open: OpenOutcome)
      modifies this`isInitialized, manager`storageType, manager`db
      ensures InitStep(open)
      ensures isInitialized || manager.storageType == "localstorage"
    {
      if !isInitialized {
        var r := manager.Init(open);
        if r.Pass? {
          isInitialized := true;
        } else {
          manager.storageType := "localstorage";
        }
      }
    }

    /**
     * Two calls of `initStorage`: after a failed open (before or after the upgrade) the
     * second call does not open the database again, so the connection is the one the first
     * call left; afterwards the adapter is initialised whatever the opens did.
     */
    method InitStorageTwice(first: OpenOutcome, second: OpenOutcome)
      modifies this`isInitialized, manager`storageType, manager`db
      ensures isInitialized
      ensures manager.storageType == "indexeddb" ==> old(manager.storageType) == "indexeddb" && (old(isInitialized) || first.Opened?)
      ensures !old(isInitialized) && !first.Opened? ==> (manager.db == (
        if old(manager.storageType) != "indexeddb" || first.OpenFailed? then old(manager.db)
        else Some(Database(OpenedStores(first)))))
    {
      InitStorage(first);
      InitStorage(second);
    }

    /** `getItem`: initialise, load, and normalise the value; an error is read as null. */
    method GetItem(key: string, open: OpenOutcome, fault: bool, reply: Reply) returns (r: Option<string>)
      modifies this`isInitialized, manager`storageType, manager`db
      ensures InitStep(open)
      ensures r == GetResult(manager.codec, manager.LoadResult(key, fault, reply))
    {
      InitStorage(open);
      var result := manager.Load(key, fault, reply);
      if result.Err? {
        return None;
      }
      match result.value
      case Null => r := None;
      case Str(s) => r := Some(s);
      case _ => r := Some(manager.codec.stringify(result.value));
    }

    /** `setItem`: initialise, parse a string that is JSON text, save; an error is swallowed. */
    method SetItem(key: string, value: Value, open: OpenOutcome, fault: bool, reply: Reply)
      modifies this`isInitialized, manager`storageType, manager`db, manager`local, manager`settings
      ensures InitStep(open)
      ensures manager.local == manager.LocalAfterSave(old(manager.local), key, ToSave(manager.codec, value), fault)
      ensures manager.settings == manager.SettingsAfterSave(old(manager.settings), key, ToSave(manager.codec, value), fault)
    {
      InitStorage(open);
      var dataToSave := value;
      if value.Str? {
        match manager.codec.parse(value.text)
        case Some(v) => dataToSave := v;
        case None => dataToSave := value;
      }
      var _ := manager.Save(key, dataToSave, fault, reply);
    }

    /** `removeItem`: initialise, remove; an error is swallowed. */
    method RemoveItem(key: string, open: OpenOutcome, fault: bool, reply: Reply)
      modifies this`isInitialized, manager`storageType, manager`db, manager`local, manager`settings
      ensures InitStep(open)
      ensures manager.local == manager.LocalAfterRemove(old(manager.local), key, fault)
      ensures manager.settings == manager.SettingsAfterRemove(old(manager.settings), key, fault)
    {
      InitStorage(open);
      var _ := manager.Remove(key, fault, reply);
    }

    /**
     * `setItem(k, s)` then `getItem(k)` with the localStorage backend and no store failure:
     * a string that is not JSON text comes back unchanged.
     */
    method SetThenGet(key: string, s: string, open: OpenOutcome, reply: Reply) returns (r: Option<string>)
      requires BackendFor(manager.storageType) == LocalStorage
      requires NotJson(manager.codec, s)
      modifies this`isInitialized, manager`storageType, manager`db, manager`local, manager`settings
      ensures r == Some(s)
    {
      SetItem(key, Str(s), open, false, reply);
      r := GetItem(key, open, false, reply);
      LocalRoundTrip(manager.codec, old(manager.local), key, s);
    }
  }
}
