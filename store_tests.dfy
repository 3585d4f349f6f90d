/**
 * The behaviour the store's own tests check, stated for all keys, values and
 * file systems, plus the documented examples of a fresh data file.
 */
module StoreTests {
  import opened Wrappers
  import opened Fs
  import opened KeyValue
  import Json
  import HashMaps

  /**
   * The tests' fixture: creates an empty data file at `path` (the test
   * unwraps the result, so creation must succeed there) and builds an empty
   * store on it directly, without loading the file.
   */
  method TmpStore(fs: FileSystem, path: string) returns (s: Store)
    requires fs.CreateError(path).None?
    modifies fs
    ensures fresh(s) && s.path == path && s.data == map[]
    ensures fs.nodes == old(fs.nodes)[path := Regular([])]
    ensures fs.faults == old(fs.faults)
  {
    var created := fs.Create(path);
    s := new Store(path, map[]);
  }

  /** The fixture's store holds no data, and every lookup in it finds nothing. */
  method NewStoreHasNoKeys(fs: FileSystem, path: string, key: string) returns (s: Store, value: Option<string>)
    requires fs.CreateError(path).None?
    modifies fs
    ensures s.data == map[]
    ensures value == None
  {
    s := TmpStore(fs, path);
    value := s.Get(key);
  }

  /** `open_or_create` on a path where nothing exists succeeds, with no data. */
  method OpenMissingPath(fs: FileSystem, path: string, key: string) returns (r: Result<Store>, value: Option<string>)
    requires path !in fs.nodes
    ensures r.Ok? && r.value.data == map[]
    ensures value == None
  {
    r := Store.OpenOrCreate(fs, path);
    value := r.value.Get(key);
  }

  /** Setting a key and then another keeps both; setting a key again keeps the newest value. */
  method SetTwice(fs: FileSystem, s: Store, k1: string, k2: string, v1: string, v2: string)
    returns (got1: Option<string>, got2: Option<string>)
    modifies s, fs
    ensures k1 != k2 ==> got1 == Some(v1) && got2 == Some(v2)
    ensures k1 == k2 ==> got1 == Some(v2) && got2 == Some(v2)
    ensures forall k | k != k1 && k != k2 :: s.Get(k) == old(s.Get(k))
  {
    var r1 := s.Set(fs, k1, v1);
    var r2 := s.Set(fs, k2, v2);
    got1 := s.Get(k1);
    got2 := s.Get(k2);
  }

  /**
   * After a successful set, a store loaded afresh on the same path holds the
   * same map, and so the value just set.
   */
  method SetThenReopen(fs: FileSystem, s: Store, key: string, value: string)
    returns (saved: Result<()>, reopened: Result<Store>)
    modifies s, fs
    ensures saved.Ok? ==> reopened.Ok? && reopened.value.data == s.data
    ensures saved.Ok? ==> reopened.value.Get(key) == Some(value)
  {
    saved := s.Set(fs, key, value);
    if saved.Ok? {
      SavedFileReopens(fs, s.path, s.data);
    }
    reopened := Store.OpenOrCreate(fs, s.path);
  }

  /** Saving twice without a change in between leaves a file that decodes to the same map. */
  method SaveTwice(fs: FileSystem, s: Store) returns (first: Result<()>, second: Result<()>)
    modifies fs
    ensures first.Ok? && second.Ok? ==>
      s.path in fs.nodes && fs.nodes[s.path].Regular? && Json.Decode(fs.nodes[s.path].text) == Some(s.data)
  {
    first := s.Save(fs);
    second := s.Save(fs);
    if first.Ok? && second.Ok? {
      Json.DecodeRendering(fs.nodes[s.path].text, s.data);
    }
  }

  /** Iterating a store that was empty before one set yields exactly that entry. */
  method IterateAfterOneSet(fs: FileSystem, s: Store, key: string, value: string)
    returns (entries: seq<(string, string)>)
    requires s.data == map[]
    modifies s, fs
    ensures entries == [(key, value)]
  {
    var r := s.Set(fs, key, value);
    entries := s.IntoIter();
    HashMaps.SingletonEnumeration(entries, key, value);
  }

  /**
   * When the directory of the data file is missing, `File::open` reports
   * NotFound, so the store opens empty; but `File::create` fails too, so no
   * set can create the file, and the value lives only in memory.
   */
  method MissingDirectory(fs: FileSystem, path: string, key: string, value: string)
    returns (loaded: Result<Store>, saved: Result<()>)
    requires path in fs.nodes && fs.nodes[path] == Inaccessible(NotFound)
    modifies fs
    ensures loaded.Ok? && loaded.value.data == map[key := value]
    ensures saved == Err(NotFound)
    ensures fs.nodes == old(fs.nodes)
  {
    loaded := Store.OpenOrCreate(fs, path);
    saved := loaded.value.Set(fs, key, value);
  }

  /** A path below a regular file (NotADirectory) cannot be loaded: the error is returned. */
  method OpenBelowRegularFile(fs: FileSystem, path: string) returns (r: Result<Store>)
    requires path in fs.nodes && fs.nodes[path] == Inaccessible(NotADirectory)
    ensures r == Err(NotADirectory)
  {
    r := Store.OpenOrCreate(fs, path);
  }

  /** A file that exists but is empty is not a serialized map: opening it fails. */
  method OpenEmptyFile(fs: FileSystem, path: string) returns (r: Result<Store>)
    requires path in fs.nodes && fs.nodes[path] == Regular([])
    ensures r == Err(InvalidData)
  {
    Json.EmptyTextIsCorrupt();
    r := Store.OpenOrCreate(fs, path);
  }

  /**
   * A write that fails before anything is written leaves an empty file
   * behind; the value stays in memory, but the store can no longer be loaded.
   */
  method FailedWriteLeavesEmptyFile(fs: FileSystem, path: string, key: string, value: string)
    returns (saved: Result<()>, inMemory: Option<string>, reopened: Result<Store>)
    requires path !in fs.nodes
    requires path in fs.faults && fs.faults[path] == WriteFails(StorageFull, 0)
    modifies fs
    ensures saved == Err(StorageFull)
    ensures inMemory == Some(value)
    ensures reopened == Err(InvalidData)
  {
    var loaded := Store.OpenOrCreate(fs, path);
    var s := loaded.value;
    saved := s.Set(fs, key, value);
    inMemory := s.Get(key);
    assert fs.nodes[path].text == [];
    Json.EmptyTextIsCorrupt();
    reopened := Store.OpenOrCreate(fs, path);
  }

  /**
   * A write that fails part way leaves a prefix of a serialization behind.
   * Such a file never loads as a different map: it is either rejected as
   * corrupt or, when the whole text made it out, it loads the map just set.
   */
  method InterruptedSet(fs: FileSystem, s: Store, key: string, value: string)
    returns (saved: Result<()>, reopened: Result<Store>)
    requires s.path in fs.faults && fs.faults[s.path].WriteFails?
    requires s.path !in fs.nodes || fs.nodes[s.path].Regular?
    modifies s, fs
    ensures fs.faults == old(fs.faults)
    ensures saved == Err(fs.faults[s.path].kind)
    ensures reopened == Err(InvalidData) || (reopened.Ok? && reopened.value.data == s.data)
  {
    saved := s.Set(fs, key, value);
    Json.TruncatedRenderingDecodes(fs.nodes[s.path].text, s.data, fs.faults[s.path].written);
    reopened := Store.OpenOrCreate(fs, s.path);
  }

  /**
   * A save that succeeds can be followed by one that fails: once the write
   * fails after the file was truncated, the last good content is gone, the
   * new entry lives only in memory, and the file can no longer be loaded.
   */
  method LaterSaveFails(fs: FileSystem, s: Store, key: string, value: string, kind: ErrorKind)
    returns (first: Result<()>, second: Result<()>, reopened: Result<Store>)
    requires s.path !in fs.faults
    requires s.path !in fs.nodes || fs.nodes[s.path].Regular?
    modifies s, fs
    ensures first.Ok?
    ensures second == Err(kind)
    ensures s.data == old(s.data)[key := value]
    ensures reopened == Err(InvalidData)
  {
    first := s.Save(fs);
    fs.Plan(s.path, Some(WriteFails(kind, 0)));
    second := s.Set(fs, key, value);
    assert fs.nodes[s.path].text == [];
    Json.EmptyTextIsCorrupt();
    reopened := Store.OpenOrCreate(fs, s.path);
  }

  lemma QuotedKey1()
    ensures Json.Quote("key1") == "\"key1\""
  {
    Json.EscapePlain("key1");
  }

  lemma QuotedValue1()
    ensures Json.Quote("value1") == "\"value1\""
  {
    Json.EscapePlain("value1");
  }

  /** The only way to serialize the map holding just `key1`. */
  lemma FirstEntryText(t: string)
    requires Json.IsRendering(t, map["key1" := "value1"])
    ensures t == "{" + "\"key1\"" + ":" + "\"value1\"" + "}"
  {
    Json.SingletonRendering(t, "key1", "value1");
    QuotedKey1();
    QuotedValue1();
  }

  /**
   * Opens a data file that does not exist yet and sets `key1`: the value is
   * then found, and the save writes `{"key1":"value1"}`.
   */
  method FirstSet(fs: FileSystem, path: string) returns (s: Store, got: Option<string>, first: string)
    requires path !in fs.nodes && path !in fs.faults
    modifies fs
    ensures fresh(s) && s.path == path && s.data == map["key1" := "value1"]
    ensures got == Some("value1")
    ensures path in fs.nodes && fs.nodes[path] == Regular(first)
    ensures fs.faults == old(fs.faults)
    ensures first == "{" + "\"key1\"" + ":" + "\"value1\"" + "}"
  {
    var loaded := Store.OpenOrCreate(fs, path);
    s := loaded.value;
    var r := s.Set(fs, "key1", "value1");
    got := s.Get("key1");
    first := fs.nodes[path].text;
    FirstEntryText(first);
  }

  /**
   * Continues with `key2`: iterating the store then yields the two entries,
   * in some order, and the file decodes to both.
   */
  method Walkthrough(fs: FileSystem, path: string) returns (first: string, entries: seq<(string, string)>)
    requires path !in fs.nodes && path !in fs.faults
    modifies fs
    ensures first == "{" + "\"key1\"" + ":" + "\"value1\"" + "}"
    ensures HashMaps.ItemsOf(entries) == {("key1", "value1"), ("key2", "value2")} && |entries| == 2
    ensures path in fs.nodes && fs.nodes[path].Regular?
    ensures Json.Decode(fs.nodes[path].text) == Some(map["key1" := "value1", "key2" := "value2"])
  {
    var s, got;
    s, got, first := FirstSet(fs, path);
    var r := s.Set(fs, "key2", "value2");
    SavedFileReopens(fs, path, s.data);
    entries := s.IntoIter();
    WalkthroughItems(s.data);
  }

  /** The items of the walkthrough's map, written out. */
  lemma WalkthroughItems(m: map<string, string>)
    requires m == map["key1" := "value1"]["key2" := "value2"]
    ensures m.Items == {("key1", "value1"), ("key2", "value2")}
  {
    assert "key1"[3] != "key2"[3];
    assert m.Keys == {"key1", "key2"};
    forall p | p in m.Items ensures p == ("key1", "value1") || p == ("key2", "value2") {
      assert p.0 in m.Keys && m[p.0] == p.1;
    }
    assert m["key1"] == "value1" && m["key2"] == "value2";
    assert ("key1", "value1") in m.Items && ("key2", "value2") in m.Items;
  }
}
