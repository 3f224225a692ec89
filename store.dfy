/** The registry of users and its persistence in the browser's `localStorage`:
    `saveUsers`, `loadUsers`, the availability probe they both run first, and
    the registering half of the form's submit handler. */
module Store {
  import opened Wrappers
  import opened Dates
  import opened Validation

  /** The one key under which the whole registry is stored. */
  const UsersKey: string := "users"
  /** The key the availability probe writes and removes again. */
  const ProbeKey: string := "__test_storage__"

  /** A stored string as `JSON.parse` sees it. */
  datatype Blob =
    | EmptyText                                // "", which the loader treats as nothing stored
    | EncodedArray(records: seq<UserRecord>)   // the JSON text of an array of records
    | EncodedNonArray                          // well-formed JSON that is not an array
    | Unparseable                              // text on which `JSON.parse` throws

  /** `JSON.stringify` of the registry. */
  function Encode(users: seq<UserRecord>): (b: Blob)
  {
    EncodedArray(users)
  }

  datatype WriteFailure = QuotaExceeded | OtherWriteError

  datatype SaveOutcome = Saved | SkippedUnavailable | SaveFailed(failure: WriteFailure)

  datatype LoadOutcome =
    | StorageUnavailable
    | Loaded
    | ResetNotArray(heal: SaveOutcome)
    | ResetUnparseable(heal: SaveOutcome)

  datatype SubmitOutcome =
    | Rejected(error: ValidationError)
    | Registered(record: UserRecord, save: SaveOutcome)

  function Lookup(cells: map<string, Blob>, key: string): (b: Option<Blob>)
  {
    if key in cells then Some(cells[key]) else None
  }

  /** The browser's `localStorage`: string keys mapped to stored values, and
      whether the probe can currently write to it. */
  class Storage {
    var cells: map<string, Blob>
    var available: bool

    constructor(cells: map<string, Blob>, available: bool)
      ensures this.cells == cells && this.available == available
    {
      this.cells := cells;
      this.available := available;
    }

    /** `isLocalStorageAvailable`: write the probe key and remove it again.
        When that works the net effect is that the probe key is gone. */
    method Probe() returns (ok: bool)
      modifies this
      ensures ok == old(available) && available == old(available)
      ensures cells == if ok then old(cells) - {ProbeKey} else old(cells)
    {
      ok := available;
      if ok {
        // the probe's value, the bare text of its key, is not JSON
        cells := cells[ProbeKey := Unparseable];
        cells := cells - {ProbeKey};
      }
    }

    /** `getItem`: the value stored under `key`, or `null`. */
    method GetItem(key: string) returns (b: Option<Blob>)
      ensures b.Some? <==> key in cells
      ensures b.Some? ==> b.value == cells[key]
    {
      b := Lookup(cells, key);
    }

    /** `setItem`: stores `value` under `key` unless the browser raises
        `fault`, in which case nothing is written and the fault is reported. */
    method SetItem(key: string, value: Blob, fault: Option<WriteFailure>) returns (err: Option<WriteFailure>)
      modifies this
      ensures err == fault && available == old(available)
      ensures fault.None? ==> cells == old(cells)[key := value]
      ensures fault.Some? ==> cells == old(cells)
    {
      err := fault;
      if fault.None? {
        cells := cells[key := value];
      }
    }
  }

  // ---------------------------------------------------------------------
  // What saving and loading do to the stored cells, as functions of the
  // state before the call

  function SaveResult(available: bool, fault: Option<WriteFailure>): (outcome: SaveOutcome)
  {
    if !available then SkippedUnavailable
    else if fault.Some? then SaveFailed(fault.value)
    else Saved
  }

  function CellsAfterSave(cells: map<string, Blob>, available: bool,
                          users: seq<UserRecord>, fault: Option<WriteFailure>): (after: map<string, Blob>)
  {
    if !available then cells
    else if fault.Some? then cells - {ProbeKey}
    else (cells - {ProbeKey})[UsersKey := Encode(users)]
  }

  /** The registry `loadUsers` adopts. */
  function UsersAfterLoad(cells: map<string, Blob>, available: bool): (users: seq<UserRecord>)
  {
    if !available then []
    else match Lookup(cells, UsersKey)
      case Some(EncodedArray(records)) => records
      case _ => []
  }

  /** Whether `loadUsers` finds a stored value it must overwrite. */
  predicate StoredIsCorrupt(cells: map<string, Blob>)
  {
    Lookup(cells, UsersKey) == Some(EncodedNonArray) || Lookup(cells, UsersKey) == Some(Unparseable)
  }

  function CellsAfterLoad(cells: map<string, Blob>, available: bool, fault: Option<WriteFailure>): (after: map<string, Blob>)
  {
    if !available then cells
    else if StoredIsCorrupt(cells) then CellsAfterSave(cells, true, [], fault)
    else cells - {ProbeKey}
  }

  function LoadResult(cells: map<string, Blob>, available: bool, fault: Option<WriteFailure>): (outcome: LoadOutcome)
  {
    if !available then StorageUnavailable
    else match Lookup(cells, UsersKey)
      case Some(EncodedNonArray) => ResetNotArray(SaveResult(true, fault))
      case Some(Unparseable) => ResetUnparseable(SaveResult(true, fault))
      case _ => Loaded
  }

  /** The in-memory registry (`users`) and the storage it is mirrored to. */
  class Registry {
    var users: seq<UserRecord>
    const store: Storage

    constructor(store: Storage)
      ensures this.store == store && users == []
    {
      this.store := store;
      users := [];
    }

    /** `saveUsers`: if the probe succeeds, write the whole registry under
        the users key; a failed write is reported and changes nothing. The
        registry itself is never touched. */
    method Save(fault: Option<WriteFailure>) returns (r: SaveOutcome)
      modifies store
      ensures users == old(users) && store.available == old(store.available)
      ensures r == SaveResult(old(store.available), fault)
      ensures store.cells == CellsAfterSave(old(store.cells), old(store.available), users, fault)
    {
      var ok := store.Probe();
      if !ok {
        return SkippedUnavailable;
      }
      var err := store.SetItem(UsersKey, Encode(users), fault);
      if err.Some? {
        return SaveFailed(err.value);
      }
      r := Saved;
    }

    /** `loadUsers`: adopt the stored array, start empty when nothing usable
        is stored, and overwrite a value that is not an array (or not JSON)
        with the empty registry. `fault` is what the browser does to that
        overwrite. */
    method Load(fault: Option<WriteFailure>) returns (status: LoadOutcome)
      modifies this, store
      ensures store.available == old(store.available)
      ensures users == UsersAfterLoad(old(store.cells), old(store.available))
      ensures store.cells == CellsAfterLoad(old(store.cells), old(store.available), fault)
      ensures status == LoadResult(old(store.cells), old(store.available), fault)
    {
      var ok := store.Probe();
      if !ok {
        users := [];
        return StorageUnavailable;
      }
      var stored := store.GetItem(UsersKey);
      match stored {
        case Some(EncodedArray(records)) =>
          users := records;
          status := Loaded;
        case Some(EncodedNonArray) =>
          users := [];
          var heal := Save(fault);
          status := ResetNotArray(heal);
        case Some(Unparseable) =>
          users := [];
          var heal := Save(fault);
          status := ResetUnparseable(heal);
        case _ =>
          users := [];
          status := Loaded;
      }
    }

    /** The form's submit handler after reading the fields: validate, and on
        success append the record and save the registry. */
    method Submit(f: Fields, today: Date, fault: Option<WriteFailure>) returns (r: SubmitOutcome)
      modifies this, store
      ensures store.available == old(store.available)
      ensures Validate(f, today).Failure? ==>
                r == Rejected(Validate(f, today).error) &&
                users == old(users) && store.cells == old(store.cells)
      ensures Validate(f, today).Success? ==>
                r == Registered(Validate(f, today).value, SaveResult(old(store.available), fault)) &&
                users == old(users) + [Validate(f, today).value] &&
                store.cells == CellsAfterSave(old(store.cells), old(store.available), users, fault)
    {
      var v := Validate(f, today);
      if v.Failure? {
        return Rejected(v.error);
      }
      users := users + [v.value];
      var saved := Save(fault);
      r := Registered(v.value, saved);
    }
  }

  // ---------------------------------------------------------------------
  // Properties of saving and loading

  /** A save writes only the users key (and clears the probe key); every
      other stored value is kept. */
  lemma SaveTouchesOnlyUsersKey(cells: map<string, Blob>, available: bool,
                                users: seq<UserRecord>, fault: Option<WriteFailure>, key: string)
    requires key != UsersKey && key != ProbeKey
    ensures Lookup(CellsAfterSave(cells, available, users, fault), key) == Lookup(cells, key)
  {
  }

  /** A save reports success exactly when storage is available and the write
      is not refused, and then the users key holds the whole registry; when
      it is not saved, the users key keeps its old value. */
  lemma SaveStoresWholeRegistry(cells: map<string, Blob>, available: bool,
                                users: seq<UserRecord>, fault: Option<WriteFailure>)
    ensures SaveResult(available, fault) == Saved <==> available && fault.None?
    ensures SaveResult(available, fault) == Saved ==>
              Lookup(CellsAfterSave(cells, available, users, fault), UsersKey) == Some(Encode(users))
    ensures SaveResult(available, fault) != Saved ==>
              Lookup(CellsAfterSave(cells, available, users, fault), UsersKey) == Lookup(cells, UsersKey)
  {
    assert UsersKey != ProbeKey;
  }

  /** Loading right after a successful save restores exactly the saved registry. */
  lemma SaveThenLoadRoundTrip(cells: map<string, Blob>, users: seq<UserRecord>, fault: Option<WriteFailure>)
    ensures UsersAfterLoad(CellsAfterSave(cells, true, users, None), true) == users
    ensures LoadResult(CellsAfterSave(cells, true, users, None), true, fault) == Loaded
  {
  }

  /** Loading yields the empty registry when storage is unavailable (and then
      leaves storage alone), when nothing or the empty string is stored, and
      when the stored value is not an array or not JSON. */
  lemma LoadRecoversEmpty(cells: map<string, Blob>, available: bool, fault: Option<WriteFailure>)
    ensures !available ==> UsersAfterLoad(cells, available) == [] &&
                           CellsAfterLoad(cells, available, fault) == cells
    ensures Lookup(cells, UsersKey) in {None, Some(EmptyText), Some(EncodedNonArray), Some(Unparseable)} ==>
              UsersAfterLoad(cells, available) == []
    ensures available && Lookup(cells, UsersKey) in {None, Some(EmptyText)} ==>
              Lookup(CellsAfterLoad(cells, available, fault), UsersKey) == Lookup(cells, UsersKey)
  {
    assert UsersKey != ProbeKey;
  }

  /** A corrupt value is overwritten, not just masked: a second load also
      yields the empty registry, and when the overwrite went through it finds
      a well-formed empty array and does not reset again. */
  lemma CorruptionIsOverwritten(cells: map<string, Blob>, f1: Option<WriteFailure>, f2: Option<WriteFailure>)
    requires StoredIsCorrupt(cells)
    ensures UsersAfterLoad(cells, true) == []
    ensures UsersAfterLoad(CellsAfterLoad(cells, true, f1), true) == []
    ensures f1.None? ==> Lookup(CellsAfterLoad(cells, true, f1), UsersKey) == Some(Encode([])) &&
                         LoadResult(CellsAfterLoad(cells, true, f1), true, f2) == Loaded
  {
    assert UsersKey != ProbeKey;
  }

  // ---------------------------------------------------------------------
  // Clients: what callers can conclude from the method contracts alone

  /** Saving the registry and loading it straight back leaves it unchanged
      whenever the save went through. */
  method SaveThenLoad(reg: Registry, f1: Option<WriteFailure>, f2: Option<WriteFailure>)
    returns (saved: SaveOutcome, loaded: LoadOutcome)
    modifies reg, reg.store
    ensures saved == Saved ==> reg.users == old(reg.users) && loaded == Loaded
  {
    saved := reg.Save(f1);
    loaded := reg.Load(f2);
    if saved == Saved {
      SaveStoresWholeRegistry(old(reg.store.cells), old(reg.store.available), old(reg.users), f1);
      SaveThenLoadRoundTrip(old(reg.store.cells), old(reg.users), f2);
    }
  }

  /** After a load that found a corrupt value, a second load also yields
      the empty registry. */
  method LoadTwice(reg: Registry, f1: Option<WriteFailure>, f2: Option<WriteFailure>)
    returns (first: LoadOutcome, second: LoadOutcome)
    modifies reg, reg.store
    ensures first.ResetNotArray? || first.ResetUnparseable? ==> reg.users == []
    ensures first.ResetNotArray? || first.ResetUnparseable? ==>
              (first.heal == Saved ==> second == Loaded)
  {
    first := reg.Load(f1);
    second := reg.Load(f2);
    if first.ResetNotArray? || first.ResetUnparseable? {
      CorruptionIsOverwritten(old(reg.store.cells), f1, f2);
    }
  }

  /** A rejected submission changes nothing; an accepted one grows the
      registry by exactly its record, even when saving it fails. */
  method SubmitEffect(reg: Registry, f: Fields, today: Date, fault: Option<WriteFailure>)
    returns (r: SubmitOutcome)
    modifies reg, reg.store
    ensures r.Rejected? ==> reg.users == old(reg.users)
    ensures r.Registered? ==> |reg.users| == |old(reg.users)| + 1 &&
                              reg.users[..|old(reg.users)|] == old(reg.users) &&
                              reg.users[|old(reg.users)|] == r.record &&
                              WellFormedRecord(r.record)
  {
    r := reg.Submit(f, today, fault);
  }
}
