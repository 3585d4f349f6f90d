/**
 * The key-value store: a map from string keys to string values bound to the
 * path of its data file. Every change is saved by rewriting the whole file
 * from the map.
 */
module KeyValue {
  import opened Wrappers
  import opened Fs
  import Json
  import HashMaps

  /**
   * What a save of the map `m` to `path` does to the file system's `before`
   * state, given the error `File::create` reports there (`createError`) and the
   * planned faults. If `File::create` fails, the error is returned and no file
   * changes. Otherwise the file at `path` is replaced and no other path
   * changes: when the write fails it holds the first characters of a
   * serialization of `m`, as many as were written before the error; when it
   * succeeds it holds a whole serialization of `m` and the result is Ok.
   */
  ghost predicate SaveEffect(before: map<string, Node>, createError: Option<ErrorKind>, faults: map<string, Fault>,
                             after: map<string, Node>, path: string, m: map<string, string>, r: Result<()>)
  {
    match createError
    case Some(kind) => r == Err(kind) && after == before
    case None =>
      && path in after && after[path].Regular?
      && after == before[path := after[path]]
      && if path in faults && faults[path].WriteFails? then
           r == Err(faults[path].kind) && Json.IsTruncatedRendering(after[path].text, m, faults[path].written)
         else
           r == Ok(()) && Json.IsRendering(after[path].text, m)
  }

  /** `SaveEffect` between the state before a call and the state after it. */
  twostate predicate Saved(fs: FileSystem, path: string, m: map<string, string>, new r: Result<()>)
    reads fs
  {
    SaveEffect(old(fs.nodes), old(fs.CreateError(path)), fs.faults, fs.nodes, path, m, r)
  }

  /** A file that holds a serialization of `m` opens and decodes to `m`. */
  lemma SavedFileReopens(fs: FileSystem, path: string, m: map<string, string>)
    requires path in fs.nodes && fs.nodes[path].Regular?
    requires Json.IsRendering(fs.nodes[path].text, m)
    ensures fs.Open(path).Ok? && Json.Decode(fs.Open(path).value) == Some(m)
  {
    Json.DecodeRendering(fs.nodes[path].text, m);
  }

  /** A save whose `File::create` succeeded has the effect `SaveEffect` describes. */
  lemma WriteEffect(before: map<string, Node>, createError: Option<ErrorKind>, faults: map<string, Fault>,
                    created: map<string, Node>, after: map<string, Node>, path: string,
                    m: map<string, string>, text: string, r: Result<()>)
    requires createError.None? && created == before[path := Regular([])]
    requires Json.IsRendering(text, m)
    requires path in faults && faults[path].WriteFails? ==>
      r == Err(faults[path].kind) && after == created[path := Regular([] + text[..Min(faults[path].written, |text|)])]
    requires !(path in faults && faults[path].WriteFails?) ==>
      r == Ok(()) && after == created[path := Regular([] + text)]
    ensures SaveEffect(before, createError, faults, after, path, m, r)
  {
    if path in faults && faults[path].WriteFails? {
      assert after[path].text == text[..Min(faults[path].written, |text|)];
    } else {
      assert after[path].text == text;
    }
  }

  class Store {
    const path: string
    var data: map<string, string>

    constructor (path: string, data: map<string, string>)
      ensures this.path == path && this.data == data
    {
      this.path := path;
      this.data := data;
    }

    /**
     * Binds a store to `path`. An existing file is decoded into the map; a
     * file that does not exist gives an empty map and no file is created
     * (the file system is not modified); any other error opening the file,
     * and a file that does not decode, is returned.
     */
    static method OpenOrCreate(fs: FileSystem, path: string) returns (r: Result<Store>)
      ensures r.Ok? ==> fresh(r.value) && r.value.path == path
      ensures fs.Open(path) == Err(NotFound) ==> r.Ok? && r.value.data == map[]
      ensures fs.Open(path).Err? && fs.Open(path).error != NotFound ==> r == Err(fs.Open(path).error)
      ensures fs.Open(path).Ok? && Json.Decode(fs.Open(path).value).None? ==> r == Err(InvalidData)
      ensures fs.Open(path).Ok? && Json.Decode(fs.Open(path).value).Some? ==>
        r.Ok? && r.value.data == Json.Decode(fs.Open(path).value).value
    {
      match fs.Open(path)
      case Ok(text) =>
        match Json.Decode(text) {
          case Some(m) =>
            var s := new Store(path, m);
            r := Ok(s);
          case None =>
            r := Err(InvalidData);
        }
      case Err(kind) =>
        if kind == NotFound {
          var s := new Store(path, map[]);
          r := Ok(s);
        } else {
          r := Err(kind);
        }
    }

    /** Rewrites the data file from the map; the map itself is left untouched. */
    method Save(fs: FileSystem) returns (r: Result<()>)
      modifies fs
      ensures fs.faults == old(fs.faults)
      ensures Saved(fs, path, data, r)
    {
      ghost var before := fs.nodes;
      ghost var createError := fs.CreateError(path);
      r := fs.Create(path);
      if r.Ok? {
        var text := Json.Serialize(data);
        ghost var created := fs.nodes;
        r := fs.Write(path, text);
        WriteEffect(before, createError, fs.faults, created, fs.nodes, path, data, text, r);
      }
    }

    /**
     * Inserts or overwrites `key` in the map, then saves. The insert happens
     * whatever the save does, so a failed save leaves the new entry in memory.
     */
    method Set(fs: FileSystem, key: string, value: string) returns (r: Result<()>)
      modifies this, fs
      ensures data == old(data)[key := value]
      ensures Get(key) == Some(value)
      ensures forall k | k != key :: Get(k) == old(Get(k))
      ensures fs.faults == old(fs.faults)
      ensures Saved(fs, path, data, r)
    {
      data := data[key := value];
      r := Save(fs);
    }

    /** The value stored for `key`, if any. */
    function Get(key: string): (r: Option<string>)
      reads this
      ensures r.None? <==> key !in data
      ensures r.Some? ==> data[key] == r.value
    {
      if key in data then Some(data[key]) else None
    }

    /** Hands out every entry of the map once, in no particular order. */
    method IntoIter() returns (entries: seq<(string, string)>)
      ensures HashMaps.Enumerates(entries, data)
      ensures HashMaps.ItemsOf(entries) == data.Items
      ensures |entries| == |data|
    {
      entries := HashMaps.Iterate(data);
      HashMaps.EnumerationIsItems(entries, data);
    }
  }
}
