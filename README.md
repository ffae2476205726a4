# js-cardio-async document store, modelled in Dafny

The store keeps one flat JSON object per file in its database directory. It offers:

- per-key access: `get`, `set`, `remove`;
- whole-file access: `getFile`, `createFile`, `deleteFile`, `mergeData`;
- three comparisons between the key lists of two files: `union`, `intersect`, `difference`.

Each operation may append one timestamped line to a log file through `log`.

The model is a `Store` class in module `Db` (`store.dfy`) with two fields:

- `docs`: a map from file name to `Doc`. A `Doc` is either `Corrupt(text)`, text the JSON parser rejects, or `Object(entries)`, an object's properties in insertion order.
- `log`: the sequence of `Entry(message, stamp)` values appended so far.

Each operation is a method on the class. Its contract gives the new `docs`, the new `log` and the settled promise: `Ok(value)` or `Err(fault)`. A fault is `NoSuchFile(file)` for a failed read or `Unparsable(file)` for a failed parse.

The supporting modules each hold one piece of pure logic, specified by functions and lemmas:

| file | module | holds |
|---|---|---|
| `objects.dfy` | `Objects` | insertion-ordered objects: `parsed[key]`, `parsed[key] = value`, `delete parsed[key]` |
| `key_lists.dfy` | `KeyLists` | the key-list algebra behind the three comparisons, and how a list is logged |
| `aggregate.dfy` | `Aggregate` | `indexOf`, `slice` and the fold that `mergeData` performs |
| `documents.dfy` | `Documents` | reading and parsing one file or a pair of files |
| `logger.dfy` | `Logger` | log lines and the log file's text |
| `json.dfy` | `Json` | JSON values, JavaScript truthiness, string conversion, JSON serialisation |
| `outcome.dfy` | `Outcome` | option, result and fault types |

The doc comments and the code of `db.js` sometimes disagree. The model follows the code:

- `getFile` never parses. A corrupt file is returned and logged as its raw text.
- `createFile` on an existing file logs an error but resolves normally. It does not reject.
- `union`, `intersect` and `difference` do not catch faults. A missing or corrupt file rejects the call and nothing is logged.
- `deleteFile` logs nothing. Its `try`/`catch` cannot catch the rejected `unlink` promise, so a missing file rejects the call.
- `remove` logs nothing on success. So not every call appends a log line.
- `mergeData` always resolves with nothing. It logs either the aggregate or `ERROR {err}`.
- `intersect` is not a set intersection. Its result holds every key of B, and its doc comment's example holds only because there B's keys are a subset of A's. `KeyLists.IntersectIsSharedIff` states exactly when it agrees with the shared keys.

## Model

| member | source | states |
|---|---|---|
| `Db.Store.Log` | db.js:24-28 | appends exactly one entry (message and clock reading), then rejects with `err` if one was given, else resolves |
| `Db.Store.Get` | db.js:35-51 | missing or corrupt file: one "no such file" entry and the read/parse fault is passed on; absent or falsy value (null, false, 0, ""): one "{key} invalid on {file}" entry and resolves with nothing; truthy value: logs its string form and returns it; documents never change |
| `Db.Store.GetFile` | db.js:58-69 | a file that exists, corrupt or not, has its text returned and logged; a missing one logs "no such file" and rejects |
| `Db.Store.Set` | db.js:96-112 | readable file: that document becomes the old one with `key` set to `value`, all other documents unchanged, the value logged; otherwise one "no such file" entry, the fault passed on, documents unchanged |
| `Db.Store.Remove` | db.js:119-136 | readable file: that document loses `key`, the serialisation of the result is returned, nothing is logged; otherwise one "no such file" entry, the fault passed on, documents unchanged |
| `Db.Store.DeleteFile` | db.js:143-149 | an existing file is removed; a missing one rejects with NoSuchFile and nothing changes; the log is never touched |
| `Db.Store.CreateFile` | db.js:175-183 | an existing file, corrupt or not, keeps its content and "already exists" is logged; otherwise the file holds `content` and "{file}: created" is logged |
| `Db.Store.MergeData` | db.js:225-237 | appends exactly one entry: the serialised aggregate of the listed files, or "ERROR" with the fault of the first file that fails |
| `Db.Store.Union` | db.js:247-258 | both files readable: logs the bracketed, comma-joined union key list and resolves; else rejects with the first fault (A read, B read, A parse, B parse) and logs nothing |
| `Db.Store.Intersect` | db.js:268-281 | as Union, logging the list the source's two loops build (shared keys of A, then the remaining keys of B) |
| `Db.Store.Difference` | db.js:291-304 | as Union, logging A's keys absent from B followed by B's keys absent from A |
| `Db.PushEach` | db.js:253 | the result is `props` followed by every key, in order |
| `Db.PushEachNew` | db.js:254-256 | the result is what pushing each key not yet collected gives (`AppendNew`) |
| `Db.PushEachIn` | db.js:274-276 | the result is `props` followed by the keys found in the other list, in order |
| `Db.PushEachNotIn` | db.js:297-302 | the result is `props` followed by the keys absent from the other list, in order |
| `Db.SetThenGet` | db.js:101-108 | after `set` on a readable file, `get` of that key returns the value set, or nothing when the value is falsy |
| `Db.RemoveThenGet` | db.js:123-132 | after `remove` on a readable file, `get` of that key resolves with nothing; the only log entry is the invalid-key one |
| `Db.CreateThenGetFile` | db.js:175-183 | `getFile` after a successful `createFile` returns and logs the serialised content |
| `Db.CreateThenDelete` | db.js:143-149 | `deleteFile` after a successful `createFile` restores the database; deleting again rejects with NoSuchFile; only the creation is logged |
| `Db.GetAt` | db.js:39-47 | in a store where no document repeats a property, `get` of the property at any position returns the value stored there when it is truthy, and logs it |
| `Db.RemoveAt` | db.js:123-132 | in such a store, `remove` of the property at any position cuts out exactly that entry, keeps the others in order, returns the new text and logs nothing |
| `Db.CreateTwice` | db.js:175-183 | creating a file twice keeps the first content and logs "created" and then "already exists" |
| `Documents.Load` | db.js:39-41 | `readFile` then `JSON.parse`: succeeds exactly on a parsed document, with its entries; fails with NoSuchFile exactly when the file is missing, otherwise with Unparsable, naming the file either way |
| `Documents.LoadPair` | db.js:249-252 | read A, read B, parse A, parse B: succeeds exactly when both files load, with both entry lists; a missing file is reported before any parse fault; B's fault is reported only when A loads or only B is missing; the fault reported is the named file's own `Load` fault, so the result is fixed in every case |
| `Documents.Text` | db.js:62 | what `readFile` returns: a corrupt file's own text, or the `JSON.stringify` text of a parsed document (the form the store writes) |
| `Objects.Lookup` | db.js:43 | finds nothing exactly when the key is not among the object's keys; what it finds is the value stored under that key |
| `Objects.LookupAt` | db.js:43 | in an object with no repeated key, the property at any position is what a lookup of its name finds |
| `Objects.Put` | db.js:105 | the key now maps to the value; every other key maps to what it did; the key list is unchanged if the key existed, else the key is appended |
| `Objects.PutWellFormed` | db.js:105 | assignment keeps the object free of repeated keys |
| `Objects.Delete` | db.js:127 | the key is gone; every other key keeps its value; the key list is the old one without that key, in order; deleting an absent key changes nothing |
| `Objects.DeleteAt` | db.js:127 | deleting a property cuts out exactly its entry and keeps the others in order |
| `Objects.DeleteWellFormed` | db.js:127 | deletion keeps the object free of repeated keys |
| `KeyLists.AppendNew` | db.js:254-256 | pushing the new keys keeps what was collected as a prefix; the result holds exactly the keys of both lists |
| `KeyLists.AppendNewDistinct` | db.js:254-256 | pushing only absent keys never creates a duplicate |
| `KeyLists.AppendNewIsMissing` | db.js:254-256 | for a duplicate-free key list, the loop appends exactly the keys not yet collected, in their order |
| `KeyLists.Missing` | db.js:297-302 | holds exactly the keys of the first list absent from the second |
| `KeyLists.Shared` | db.js:274-276 | holds exactly the keys of the first list present in the second |
| `KeyLists.UnionKeys` | db.js:253-256 | union's `props`: A's keys, then each key of B not collected yet (stated by `KeyLists.UnionSpec`) |
| `KeyLists.IntersectKeys` | db.js:274-279 | intersect's `props`: A's keys present in B, then each key of B not collected yet (stated by `KeyLists.IntersectSpec`) |
| `KeyLists.DifferenceKeys` | db.js:297-302 | difference's `props`: A's keys absent from B, then B's keys absent from A (stated by `KeyLists.DifferenceSpec`) |
| `KeyLists.UnionSpec` | db.js:253-257 | union is A's keys then B's keys missing from A; it has no duplicates, holds exactly keys(A) ∪ keys(B), and its length is the size of that set |
| `KeyLists.IntersectSpec` | db.js:274-280 | the source's intersect is the shared keys followed by B's remaining keys; it has no duplicates, its members are exactly B's keys, and its length is B's key count |
| `KeyLists.IntersectIsSharedIff` | db.js:260-281 | the source's intersect equals the true shared-key list if and only if every key of B is a key of A |
| `KeyLists.IntersectIsShared` | db.js:268-281 | when every key of B is a key of A, the source's intersect is exactly the shared keys |
| `KeyLists.IntersectNotShared` | db.js:268-281 | a key of B that A lacks appears in the source's intersect although it is not shared |
| `KeyLists.DifferenceSpec` | db.js:297-303 | difference has no duplicates, holds exactly the keys in one document but not the other, and no key of both |
| `KeyLists.UnionExample` | db.js:243-245 | union of the scott and andrew key lists is firstname, lastname, email, username |
| `KeyLists.IntersectExample` | db.js:264-266 | intersect(scott, andrew) gives firstname, lastname, email, as the doc comment's example says |
| `KeyLists.IntersectSwappedExample` | db.js:274-280 | intersect(andrew, scott) gives all four scott keys, although only three are shared |
| `KeyLists.DifferenceExample` | db.js:287-289 | difference of the scott and andrew key lists is username alone |
| `Aggregate.Merge` | db.js:228-232 | `mergeData`'s aggregation: the loop run from an empty object over the listing in its order; its result is stated by `Aggregate.MergeSpec`, `MergeFromOk` and `MergeFromErr` |
| `Aggregate.Slice` | db.js:230 | `slice(start, end)`: within bounds it is the substring from `start` to `end`; a negative `end` counts from the end of the string, and an empty range gives "" |
| `Aggregate.MergeFrom` | db.js:229-232 | the `for await` loop: each listed file, in order, is read and parsed and stored under its trimmed name, and the first file that fails ends the loop with its fault (its properties are stated by the `MergeFrom*` lemmas below) |
| `Aggregate.IndexOf` | db.js:230 | -1 exactly when the character does not occur; otherwise the position of its first occurrence |
| `Aggregate.IndexOfAt` | db.js:230 | `indexOf` gives the first occurrence and no other position |
| `Aggregate.TrimName` | db.js:230 | a name with a dot is cut just before its first dot; a name without one loses its last character |
| `Aggregate.TrimNameWithExtension` | db.js:186-187 | "scott.json" is aggregated under "scott" |
| `Aggregate.TrimNameWithoutDot` | db.js:230 | "README" is aggregated under "READM" |
| `Aggregate.MergeFromOk` | db.js:229-232 | the aggregation succeeds exactly when every listed file reads and parses |
| `Aggregate.MergeFromErr` | db.js:229-235 | a failed aggregation reports the fault of the first listed file that fails, and every earlier file loaded |
| `Aggregate.MergeFromKeys` | db.js:229-232 | the aggregate's keys are the trimmed file names, each once, in first-seen order |
| `Aggregate.MergeFromValues` | db.js:229-232 | under each trimmed name the aggregate holds the contents of the last listed file with that name |
| `Aggregate.MergeSpec` | db.js:185-233 | a successful merge has one key per distinct trimmed name, no key twice, and each key holds the contents of the last file listed under it |
| `Logger.Line` | db.js:25 | the text one `log` call appends: newline, the value's string form, a space, the time in milliseconds, newline |
| `Logger.LogTextAppend` | db.js:25 | appending entries only extends the log file's text |
| `Logger.LineParts` | db.js:25 | each line carries its message after the leading newline, and its stamp reads back from the digits before the closing newline |
| `Json.Falsy` | db.js:45 | `!value` for a JSON value: true exactly for null, false, 0 and the empty string (an absent property is handled by `Lookup` returning nothing) |
| `Json.ToText` | db.js:46 | `${value}`: strings are themselves, numbers their decimal numeral, arrays their items' conversions joined by commas with null items as nothing, objects "[object Object]" |
| `Json.ToTextExample` | db.js:46 | a null array item prints as nothing; an object prints as "[object Object]" |
| `Json.ToTextNestedExample` | db.js:46 | a nested array is flattened into one comma-joined list |
| `Json.Stringify` | db.js:106 | `JSON.stringify` without white space: strings and keys quoted with JSON escapes, properties in order as `"key":value` joined by commas in braces, arrays' items joined by commas in brackets |
| `Json.QuoteExample` | db.js:106 | a quote inside a string is written as a backslash and a quote |
| `Json.StringifyExample` | db.js:106 | an object with one null property is written as `{"a":null}` |
| `KeyLists.Join` | db.js:257 | the comma-joined elements of a key list, as an array converts to a string |
| `KeyLists.Bracketed` | db.js:257 | the logged `[${props}]`: the joined keys between brackets |
| `KeyLists.BracketedIsToText` | db.js:257 | for every key list, `Bracketed` is the string conversion of the list as an array of strings, between brackets |
| `KeyLists.BracketedExample` | db.js:257 | ["firstname", "lastname"] is logged as "[firstname,lastname]", and an empty list as "[]" |
| `Json.Decimal` | db.js:25 | `${n}` for an integer within ±2^53: a minus sign for a negative number, then the digits without leading zeros; `Json.DecimalRoundTrip` reads it back |
| `Db.Describe` | db.js:235 | `${err}` for a fault: Node's ENOENT message for a failed read; for a failed parse, only the error's name "SyntaxError" is kept, without the ": " and the parser's message that follow it in JavaScript. Under `MergeData`'s precondition every listed file exists, so only the parse text is reached there |
| `Db.MergeMessage` | db.js:233-235 | what `mergeData` logs: `JSON.stringify` of the aggregate, or "ERROR " followed by the fault's text |
| `Objects.KeysOf` | db.js:253 | `Object.keys(parsed)`: the object's property names in order, one per entry; it feeds the three comparisons at db.js:253, 274-277 and 297-301 |
| `Logger.LogText` | db.js:25 | the text of log.txt after the given `log` calls: their lines, in order, one after another |
| `Db.NoSuchFileMessage` | db.js:49 | `ERROR no such file or directory ${file}`, the message `get`, `getFile`, `set` and `remove` log on a failed read or parse (db.js:49, 67, 110 and 134) |
| `Db.InvalidKeyMessage` | db.js:45 | `ERROR ${key} invalid on ${file}`, the message `get` logs for an absent or falsy property |
| `Db.ExistsMessage` | db.js:178 | `ERROR file or directory already exists: ${file}`, what `createFile` logs for an existing file |
| `Db.CreatedMessage` | db.js:181 | `${file}: created`, what `createFile` logs after writing a new file |
| `Json.DecimalRoundTrip` | db.js:25 | a printed number (a timestamp, a logged value) reads back as the same number |

## Left out

- The HTTP layer (`controller.js`, `router.js`, `server.js`) is not part of this model. It only translates requests into calls of these operations.
- JSON parsing is not modelled. A document is held as its parsed object, and `Corrupt` stands for any text the parser rejects.
- A parsed document's file text is taken to be JSON.stringify's output, the form the store itself writes. Other white space in files written by other means is not modelled.
- A file whose JSON is not an object (`null`, a number, an array) is not modelled.
- Numbers are integers of magnitude at most 2^53 (the type `Json.ExactInt`), the range in which JavaScript prints every integer as its plain decimal numeral. Larger integers (rounded digits, and exponent form from 10^21 on), fractions, NaN and -0 are not modelled.
- Strings are sequences of Unicode characters, not UTF-16 code units. So `slice`, `indexOf` and string lengths count a character outside the Basic Multilingual Plane as one position where JavaScript counts two. In particular, the model does not capture `TrimName` of a dot-less name ending in such a character leaving a lone surrogate. String serialisation does not model lone surrogates.
- Values nested inside a document are not required to be free of repeated keys. Any value JSON.parse returns is, but the store only prints nested values and never looks inside them.
- `Object.keys` puts integer-like keys first; the model keeps plain insertion order.
- Inherited properties (`toString`, `__proto__`) are not modelled for lookup or assignment.
- A property named `toString` does not change string conversion in the model. In JavaScript, an object (or an array holding one) with its own non-function `toString` property makes `${value}` throw a TypeError. Then `get` still resolves with the value and appends nothing, while its un-awaited `log` promise rejects with no handler, which by default ends a Node 15 or later process; `set` logs "no such file" and rejects after it has issued the write. `Json.ToText` gives "[object Object]" for every object.
- File names are plain keys of the database map, with no path resolution. The source opens `./database/${file}`, so `x.json`, `./x.json` and `../database/x.json` name one file there, and `../log.txt` reaches the log file. The model treats them as distinct names.
- `Date.now()` is the parameter `now`.
- Every operation runs atomically, one at a time. So the model leaves out five races: the lost update between two `set`/`remove` calls; the un-awaited `writeFile` in `set`; the gap between the existence check and the write in `createFile`; and the un-awaited `log(value)` in `get` and `log(data)` in `getFile`. `get` and `getFile` resolve before that line is appended, so a later operation's line can land first. `Db.Store.Get` and `Db.Store.GetFile` state the log as it is once their line has been appended.
- File-system failures other than a missing file are not modelled. A write, an unlink or a log append never fails.
- `reset` and the commented-out earlier versions of `set`, `createFile` and `mergeData` are not modelled.
- Db.Store.MergeData: the directory listing is the parameter `listing`. Its order is whatever the file system gives. The parser's message text after "SyntaxError" is not modelled.
- Db.Describe: a failed parse is described as "SyntaxError" alone. JavaScript's `${err}` gives "SyntaxError: " followed by the parser's message (for example "SyntaxError: Unexpected end of JSON input"), which depends on the parser's wording and the position of the fault, so the model does not reproduce it.
- Db.Store.CreateFile: `content` is restricted to a JSON object with no repeated key. A request body that is an array or a scalar is not modelled.
