/**
 * The part of `std::fs` and `std::io` the store relies on: opening a file
 * and reading all of it, creating (or truncating) a file, and writing to the
 * file just created. The file system is a map from paths to what `File::open`
 * finds there; paths absent from the map do not exist. Creating or writing a
 * file can be made to fail at chosen paths, so that every error path of the
 * store can be reached. The plan of failures can change between calls (a
 * disk fills up, a permission is withdrawn), so a save that succeeds can be
 * followed by one that fails at the same path.
 */
module Fs {
  import opened Wrappers

  /** The `std::io::ErrorKind`s the model distinguishes. */
  datatype ErrorKind =
    | NotFound
    | PermissionDenied
    | NotADirectory
    | InvalidData
    | StorageFull
    | Other

  /** `std::io::Result`. */
  datatype Result<+T> = Ok(value: T) | Err(error: ErrorKind)

  /** What is found at a path: a regular file, or something that cannot be opened. */
  datatype Node = Regular(text: string) | Inaccessible(kind: ErrorKind)

  /**
   * A failure planned at a path: `File::create` fails, or the file is
   * created and the write stops with an error after `written` characters.
   */
  datatype Fault = CreateFails(kind: ErrorKind) | WriteFails(kind: ErrorKind, written: nat)

  function Min(a: nat, b: nat): nat {
    if a <= b then a else b
  }

  class FileSystem {
    var nodes: map<string, Node>
    var faults: map<string, Fault>

    constructor (nodes: map<string, Node>, faults: map<string, Fault>)
      ensures this.nodes == nodes && this.faults == faults
    {
      this.nodes := nodes;
      this.faults := faults;
    }

    /**
     * `File::open` followed by reading the file to its end: a regular file
     * yields its text; a path that does not exist reports NotFound; anything
     * else reports the error found there.
     */
    function Open(path: string): (r: Result<string>)
      reads this
      ensures r.Ok? <==> path in nodes && nodes[path].Regular?
      ensures r.Ok? ==> r.value == nodes[path].text
      ensures path !in nodes ==> r == Err(NotFound)
      ensures path in nodes && nodes[path].Inaccessible? ==> r == Err(nodes[path].kind)
    {
      if path !in nodes then Err(NotFound)
      else match nodes[path]
        case Regular(text) => Ok(text)
        case Inaccessible(kind) => Err(kind)
    }

    /**
     * The error `File::create` reports at `path`, if any: what makes the
     * path unopenable, or else a planned creation failure. A path that does
     * not exist or holds a regular file can otherwise be created.
     */
    function CreateError(path: string): (r: Option<ErrorKind>)
      reads this
      ensures r.None? <==>
        (path !in nodes || nodes[path].Regular?) && !(path in faults && faults[path].CreateFails?)
      ensures path in nodes && nodes[path].Inaccessible? ==> r == Some(nodes[path].kind)
    {
      if path in nodes && nodes[path].Inaccessible? then Some(nodes[path].kind)
      else if path in faults && faults[path].CreateFails? then Some(faults[path].kind)
      else None
    }

    /** `File::create`: makes `path` an empty regular file, or fails without effect. */
    method Create(path: string) returns (r: Result<()>)
      modifies this
      ensures old(CreateError(path)).Some? ==> r == Err(old(CreateError(path)).value) && nodes == old(nodes)
      ensures old(CreateError(path)).None? ==> r == Ok(()) && nodes == old(nodes)[path := Regular([])]
      ensures faults == old(faults)
    {
      var e := CreateError(path);
      if e.Some? {
        r := Err(e.value);
      } else {
        nodes := nodes[path := Regular([])];
        r := Ok(());
      }
    }

    /** Appends `text` to the regular file at `path`; a planned write fault cuts it short. */
    method Write(path: string, text: string) returns (r: Result<()>)
      requires path in nodes && nodes[path].Regular?
      modifies this
      ensures path in faults && faults[path].WriteFails? ==>
        && r == Err(faults[path].kind)
        && nodes == old(nodes)[path := Regular(old(nodes[path].text) + text[..Min(faults[path].written, |text|)])]
      ensures !(path in faults && faults[path].WriteFails?) ==>
        r == Ok(()) && nodes == old(nodes)[path := Regular(old(nodes[path].text) + text)]
      ensures faults == old(faults)
    {
      if path in faults && faults[path].WriteFails? {
        var n := Min(faults[path].written, |text|);
        nodes := nodes[path := Regular(nodes[path].text + text[..n])];
        r := Err(faults[path].kind);
      } else {
        nodes := nodes[path := Regular(nodes[path].text + text)];
        r := Ok(());
      }
    }

    /**
     * The environment changes what will fail at `path` from now on: a new
     * planned failure, or none. No file changes.
     */
    method Plan(path: string, fault: Option<Fault>)
      modifies this
      ensures fault.Some? ==> faults == old(faults)[path := fault.value]
      ensures fault.None? ==> faults == old(faults) - {path}
      ensures nodes == old(nodes)
    {
      if fault.Some? {
        faults := faults[path := fault.value];
      } else {
        faults := faults - {path};
      }
    }
  }
}
