# rskey `Store`, modelled in Dafny

rskey is a small key-value store of strings. A `Store` holds a map from
string keys to string values (`data`) and the path of the data file it is
bound to (`path`). The `Store` has these operations:

- `open_or_create` loads the map from the data file. A file that does not
  exist gives an empty map and does not create a file. Any other open error
  is returned, and so is a file whose contents do not decode.
- `save` rewrites the whole file from the map. It creates or truncates the
  file, then serializes the map into it as JSON.
- `set` inserts or overwrites one entry in memory, then saves.
- `get` looks up one key.
- `into_iter` hands out every entry, in no particular order.

The project has one module per concern:

- `Wrappers` (`wrappers.dfy`) holds `Option`.
- `Fs` (`fs.dfy`) is the file system the store uses, as an object with a
  `nodes` map from path to what `File::open` finds there. Faults can be
  planned per path: `File::create` can fail, or the write can stop with an
  error after a given number of characters. The plan can change between
  calls, so a save that succeeds can be followed by one that fails and
  leaves the file truncated.
- `HashMaps` (`hashmaps.dfy`) is iteration over a `HashMap`. The order is
  left open: the loop picks any key it has not yet visited. Its contract is
  that the result lists every entry of the map exactly once.
- `Json` (`json.dfy`) is the data-file format. It is a JSON-shaped object
  `{"key":"value",...}`, with a proved round trip from encoding to decoding.
  It also proves that a file cut short by a failed write never decodes to a
  different map.
- `KeyValue` (`store.dfy`) is the `Store` class itself.
- `StoreTests` (`store_tests.dfy`) states the store's unit tests and its
  documented walkthrough for all keys, values and file systems.

## Model

| member | source | states |
|---|---|---|
| KeyValue.Store.constructor | src/lib.rs:89-92 | a store holds exactly the path and the map it is built from |
| KeyValue.Store.OpenOrCreate | src/lib.rs:113-125 | a decodable file gives a store holding the decoded map; a missing file (NotFound) gives an empty store; any other open error is returned unchanged; an undecodable file gives InvalidData; the file system is not modified, so no file is created |
| KeyValue.Store.Save | src/lib.rs:137-142 | if `File::create` fails, its error is returned and no file changes. Otherwise only the file at `path` is replaced. When the write fails, its error is returned and the file holds the written prefix of a serialization of `data`. When the write succeeds, the result is Ok and the file holds a whole serialization of `data`. `data` itself is not modified |
| KeyValue.Store.Set | src/lib.rs:164-167 | the map becomes the old map with `key` bound to `value`, whatever the save returns; `Get(key)` is then `Some(value)` and every other key reads as before; the file system changes exactly as a save of the new map |
| KeyValue.Store.Get | src/lib.rs:183-185 | the result is None exactly when the key is absent, and otherwise is the value the map holds for it; it reads only the store |
| KeyValue.Store.IntoIter | src/lib.rs:188-194 | the entries list every key of the map exactly once with its value; as a set they are the map's items and their number is the map's size |
| KeyValue.SaveEffect | src/lib.rs:137-142 | a save whose `File::create` fails returns that error and changes no file; otherwise only the file at the path changes, and it holds a written prefix of a serialization of the map with the write error, or a whole serialization with Ok |
| KeyValue.SavedFileReopens | src/lib.rs:116 | a regular file holding a serialization of `m` opens, and its text decodes to `m` |
| KeyValue.WriteEffect | src/lib.rs:138-141 | creating the file, then writing a serialization of `m` into it, has the effect the save contract describes, in both the failed-write and the successful-write case |
| Fs.FileSystem.Open | src/lib.rs:114-116 | opening and reading succeeds exactly on a regular file and yields its text; a path that does not exist reports NotFound; an unopenable path reports the error found there |
| Fs.FileSystem.CreateError | src/lib.rs:138 | `File::create` succeeds exactly where the path is absent or a regular file and no creation failure is planned; an unopenable path reports its own error |
| Fs.FileSystem.Create | src/lib.rs:138 | `File::create` either reports the error planned or found at the path and changes nothing, or makes the path an empty regular file and changes no other path |
| Fs.FileSystem.Write | src/lib.rs:139-140 | writing appends the text to the file; a planned write fault returns its error after appending only the first `written` characters; no other path changes |
| HashMaps.Iterate | src/lib.rs:188-194 | the result lists every entry of the map exactly once, with its value, in an order the model leaves open |
| HashMaps.EnumerationIsItems | src/lib.rs:188-194 | a list that enumerates a map has exactly the map's items as its elements, and exactly as many elements as the map has entries |
| HashMaps.SingletonEnumeration | src/lib.rs:261-269 | the only enumeration of a one-entry map is that single entry |
| HashMaps.DistinctKeysCount | src/lib.rs:188-194 | a list of pairs whose keys are pairwise distinct has as many distinct keys as elements |
| Json.Render | src/lib.rs:140 | the text of an object listing the entries in the given order: it starts with `{` and ends with `}`, and is `{}` exactly when there are no entries |
| Json.IsRendering | src/lib.rs:140 | a text is what serializing a map may write when it renders some enumeration of the map's entries, one per key, in any order |
| Json.Apply | src/lib.rs:116 | inserting the members one after another binds the old keys and the member keys; each member key gets the value of its last occurrence, and every other old key keeps its value |
| Json.Decode | src/lib.rs:116 | a text decodes exactly when it parses as an object; the decoded map's keys are the member keys, each bound to the value of its last occurrence |
| Json.Serialize | src/lib.rs:140 | the text written is the map's entries rendered in some iteration order, and it decodes back to exactly the map |
| Json.DecodeRendering | src/lib.rs:116 | any rendering of a map, in any entry order, decodes to that map |
| Json.DecodeRender | src/lib.rs:116 | rendering a list of entries and decoding the text gives the map built by inserting those entries in order |
| Json.ApplyEnumeration | src/lib.rs:116 | inserting the entries of an enumeration of `m` into an empty map rebuilds `m` |
| Json.ApplyAgreeing | src/lib.rs:116 | inserting entries that all agree with `m` into a map that agrees with `m` gives a map whose keys are the old keys plus the entries' keys, and whose every value agrees with `m` |
| Json.ParseObjectOf | src/lib.rs:116 | parsing the object text of a list of entries gives back exactly those entries, in order |
| Json.ParseBodyOf | src/lib.rs:116 | parsing what follows the opening brace gives back exactly the entries rendered there |
| Json.ParseMoreMembersOf | src/lib.rs:116 | parsing the comma-led members and the closing brace gives back exactly those entries |
| Json.ParseMemberOf | src/lib.rs:116 | parsing a rendered member followed by any text gives back the key, the value and exactly that following text |
| Json.ParseStringQuote | src/lib.rs:116 | reading a quoted string followed by any text gives back the string and exactly that following text |
| Json.ParseQuotedEscape | src/lib.rs:116 | reading an escaped string and its closing quote gives back the original string and exactly the text after the quote |
| Json.EscapePlain | src/lib.rs:140 | a string without quotes or backslashes is written unchanged |
| Json.SingletonRendering | src/lib.rs:140 | a one-entry map has exactly one rendering: the brace, the quoted key, a colon, the quoted value and the closing brace |
| Json.EmptyTextIsCorrupt | src/lib.rs:116 | an empty file does not decode |
| Json.EscapedPrefixUnterminated | src/lib.rs:139-140 | a cut-off escaped string (without its closing quote) does not read as a string |
| Json.QuotePrefixUnterminated | src/lib.rs:139-140 | a proper prefix of a quoted string does not read as a string |
| Json.MemberPrefixUnterminated | src/lib.rs:139-140 | a proper prefix of a member does not read as a member |
| Json.MoreMembersPrefixUnterminated | src/lib.rs:139-140 | a proper prefix of the comma-led members and the closing brace does not parse |
| Json.BodyPrefixUnterminated | src/lib.rs:139-140 | a proper prefix of an object body does not parse |
| Json.RenderPrefixDoesNotDecode | src/lib.rs:139-140 | a proper prefix of an object's text does not decode |
| Json.RenderCutDecodes | src/lib.rs:139-140 | a rendering of `m` cut after any number of characters either does not decode or decodes to `m` |
| Json.TruncatedRenderingDecodes | src/lib.rs:137-142 | what a failed save of `m` leaves in the file either does not decode or decodes to `m`, never to another map |
| StoreTests.TmpStore | src/lib.rs:294-306 | the tests' fixture creates an empty file at the path, changing no other path, and builds a fresh empty store on it without loading the file |
| StoreTests.NewStoreHasNoKeys | src/lib.rs:203-218 | the fixture's store holds no data and finds no value for any key |
| StoreTests.OpenMissingPath | src/lib.rs:271-275 | `open_or_create` on a path where nothing exists succeeds with no data, so every lookup finds nothing |
| StoreTests.SetTwice | src/lib.rs:231-251 | two sets of different keys leave both values retrievable; two sets of the same key leave the newer value; other keys are unaffected |
| StoreTests.SetThenReopen | src/lib.rs:253-259 | after a successful set, a store reopened on the same path holds the same map and finds the value just set |
| StoreTests.SaveTwice | src/lib.rs:137-142 | two successful saves in a row leave a file that decodes to the store's map |
| StoreTests.IterateAfterOneSet | src/lib.rs:261-269 | iterating a store that was empty before one set yields exactly that one entry |
| StoreTests.MissingDirectory | src/lib.rs:95-98 | where `File::open` reports NotFound but no file can be created there, the store opens empty, a set keeps the value in memory, the save returns NotFound, and no file changes |
| StoreTests.OpenBelowRegularFile | src/lib.rs:277-287 | a path below a regular file cannot be opened, and its NotADirectory error is returned |
| StoreTests.OpenEmptyFile | src/lib.rs:116 | a file that exists but is empty makes opening fail with InvalidData |
| StoreTests.FailedWriteLeavesEmptyFile | src/lib.rs:161-167 | a write that fails before writing anything returns its error and keeps the value in memory, but leaves an empty file that can no longer be loaded |
| StoreTests.InterruptedSet | src/lib.rs:137-142 | a set whose write fails part way returns the write error, and the store reopened from the file is either rejected as corrupt or holds exactly the map just set |
| StoreTests.LaterSaveFails | src/lib.rs:137-142 | after a successful save, a later set whose write fails returns the error and keeps the new entry in memory, but the file was truncated, so the last good content is lost and the file no longer loads |
| StoreTests.FirstEntryText | src/lib.rs:140 | the only serialization of the map holding just `key1` is `{"key1":"value1"}` |
| StoreTests.FirstSet | src/lib.rs:12-15 | setting `key1` in a store opened on a path where nothing exists makes `key1` read as `value1`, and creates the file holding `{"key1":"value1"}` |
| StoreTests.Walkthrough | src/lib.rs:28-34 | after setting `key1` and then `key2`, iterating the store yields exactly the two entries, in some order, and the file decodes to both |

## Left out

- The JSON syntax of serde_json is replaced by a JSON-shaped format of the model's own. It has no whitespace and no escapes other than `\"` and `\\`, and UTF-8 encoding is not modelled (strings are sequences of characters). The decoder accepts exactly the grammar the encoder writes.
- The error kinds of decoding are folded into one: any text that does not decode is reported as InvalidData. serde_json reports truncated input as UnexpectedEof.
- `BufReader` and `BufWriter` buffering is not modelled. `save` never flushes explicitly, so an error on the final flush is lost when the writer is dropped. The model's write returns its error directly and makes no durability or atomicity claim beyond the file contents described above.
- The generic path type `P: AsRef<Path>` is a plain string.
- HashMap iteration order is left open. Both serialization and `into_iter` may list the entries in any order.
- `src/main.rs`, the command-line front end, is not part of this model. It handles argument matching, output formatting and error context, and it calls `Store::open`, `insert` and `sync`, which `src/lib.rs` does not define.
- `tests/integration_test.rs` is not part of this model: it runs the compiled binary and checks its standard output.
- Concurrent or multi-process access to the data file is not modelled.
- The plan of failures changes only between calls, through `Fs.FileSystem.Plan`; within one save, the faults are those planned when it starts. A planned fault stays in force until it is replanned.
- The temporary directory of the tests' fixture is not modelled: the fixture is given a path at which a file can be created.
