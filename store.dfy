/** The document store: the files of the database directory and the log
    file, and the operations that read and change them. Each operation runs
    to completion before the next begins; the clock reading its log line
    carries is passed in as `now`. */
module Db {
  import opened Outcome
  import opened Json
  import opened KeyLists
  import opened Objects
  import opened Logger
  import opened Documents
  import opened Aggregate

  // The messages the operations log.

  function NoSuchFileMessage(file: string): string {
    "ERROR no such file or directory " + file
  }

  function InvalidKeyMessage(key: string, file: string): string {
    "ERROR " + key + " invalid on " + file
  }

  function ExistsMessage(file: string): string {
    "ERROR file or directory already exists: " + file
  }

  function CreatedMessage(file: string): string {
    file + ": created"
  }

  /** `${err}` for a fault: Node's text for a failed read, and the name of
      the parser's error for a failed parse (the message JavaScript
      prints after that name is not modelled). */
  function Describe(f: Fault): string {
    match f
    case NoSuchFile(file) => "Error: ENOENT: no such file or directory, open './database/" + file + "'"
    case Unparsable(_) => "SyntaxError"
  }

  /** What `mergeData` logs: the serialised aggregate, or the fault that
      stopped it. */
  function MergeMessage(docs: map<string, Doc>, listing: seq<string>): string {
    match Merge(docs, listing)
    case Ok(m) => Stringify(Obj(m))
    case Err(f) => "ERROR " + Describe(f)
  }

  /** Every parsed document is an object with no property twice, as any
      object JSON.parse returns is: the invariant only rules out states no
      JavaScript object can be in. It constrains the top level of each
      document; see `GetAt` and `RemoveAt` for what it guarantees. */
  ghost predicate ValidDocs(docs: map<string, Doc>) {
    forall f | f in docs && docs[f].Object? :: WellFormed(docs[f].entries)
  }

  /** Storing an object keeps every parsed document well formed. */
  lemma StoreObject(docs: map<string, Doc>, file: string, e: Entries)
    requires ValidDocs(docs) && WellFormed(e)
    ensures ValidDocs(docs[file := Object(e)])
  {
  }

  class Store {
    /** The database directory: file name to content. */
    var docs: map<string, Doc>
    /** The log file, one entry per call of `log`. */
    var log: seq<Entry>

    ghost predicate Valid()
      reads this`docs
    {
      ValidDocs(docs)
    }

    constructor (files: map<string, Doc>, entries: seq<Entry>)
      requires ValidDocs(files)
      ensures Valid() && docs == files && log == entries
    {
      docs := files;
      log := entries;
    }

    /** `log(value, err)`: append the line, then pass `err` on if there is
        one. */
    method Log(message: string, now: nat, err: Option<Fault>) returns (r: Result<()>)
      modifies this`log
      ensures log == old(log) + [Entry(message, now)]
      ensures r == if err.Some? then Err(err.value) else Ok(())
    {
      log := log + [Entry(message, now)];
      if err.Some? {
        r := Err(err.value);
      } else {
        r := Ok(());
      }
    }

    /** `get(file, key)`: a truthy value is logged and returned; an absent or
        falsy one is logged as invalid and nothing is returned; a missing or
        corrupt file is logged and its fault passed on. */
    method Get(file: string, key: string, now: nat) returns (r: Result<Option<Value>>)
      modifies this`log
      ensures match Load(docs, file)
        case Err(f) =>
          r == Err(f) && log == old(log) + [Entry(NoSuchFileMessage(file), now)]
        case Ok(e) =>
          var found := Lookup(e, key);
          if found.Some? && !Falsy(found.value) then
            r == Ok(found) && log == old(log) + [Entry(ToText(found.value), now)]
          else
            r == Ok(None) && log == old(log) + [Entry(InvalidKeyMessage(key, file), now)]
    {
      var loaded := Load(docs, file);
      if loaded.Err? {
        var thrown := Log(NoSuchFileMessage(file), now, Some(loaded.fault));
        r := thrown.Rethrow();
        return;
      }
      var value := Lookup(loaded.value, key);
      if value.None? || Falsy(value.value) {
        var _ := Log(InvalidKeyMessage(key, file), now, None);
        r := Ok(None);
        return;
      }
      var _ := Log(ToText(value.value), now, None);
      r := Ok(value);
    }

    /** `getFile(file)`: the file's text, logged and returned. The text is not
        parsed, so only a missing file fails. */
    method GetFile(file: string, now: nat) returns (r: Result<string>)
      modifies this`log
      ensures file !in docs ==>
        r == Err(NoSuchFile(file)) && log == old(log) + [Entry(NoSuchFileMessage(file), now)]
      ensures file in docs ==>
        r == Ok(Text(docs[file])) && log == old(log) + [Entry(Text(docs[file]), now)]
    {
      if file !in docs {
        var thrown := Log(NoSuchFileMessage(file), now, Some(NoSuchFile(file)));
        r := thrown.Rethrow();
        return;
      }
      var data := Text(docs[file]);
      var _ := Log(data, now, None);
      r := Ok(data);
    }

    /** `set(file, key, value)`: the document gets `key` mapped to `value`,
        every other key and every other document stay as they were, and the
        value is logged. */
    method Set(file: string, key: string, value: Value, now: nat) returns (r: Result<()>)
      requires Valid()
      modifies this
      ensures Valid()
      ensures match Load(old(docs), file)
        case Err(f) =>
          r == Err(f) && docs == old(docs) && log == old(log) + [Entry(NoSuchFileMessage(file), now)]
        case Ok(e) =>
          r == Ok(()) && docs == old(docs)[file := Object(Put(e, key, value))]
          && log == old(log) + [Entry(ToText(value), now)]
    {
      var loaded := Load(docs, file);
      if loaded.Err? {
        r := Log(NoSuchFileMessage(file), now, Some(loaded.fault));
        return;
      }
      var parsed := Put(loaded.value, key, value);
      PutWellFormed(loaded.value, key, value);
      StoreObject(docs, file, parsed);
      docs := docs[file := Object(parsed)];
      r := Log(ToText(value), now, None);
    }

    /** `remove(file, key)`: the document loses `key` and keeps the rest in
        order; the new text is returned and nothing is logged. A missing or
        corrupt file is logged and its fault passed on. */
    method Remove(file: string, key: string, now: nat) returns (r: Result<string>)
      requires Valid()
      modifies this
      ensures Valid()
      ensures match Load(old(docs), file)
        case Err(f) =>
          r == Err(f) && docs == old(docs) && log == old(log) + [Entry(NoSuchFileMessage(file), now)]
        case Ok(e) =>
          docs == old(docs)[file := Object(Delete(e, key))] && r == Ok(Stringify(Obj(Delete(e, key))))
          && log == old(log)
    {
      var loaded := Load(docs, file);
      if loaded.Err? {
        var thrown := Log(NoSuchFileMessage(file), now, Some(loaded.fault));
        r := thrown.Rethrow();
        return;
      }
      var parsed := Delete(loaded.value, key);
      DeleteWellFormed(loaded.value, key);
      StoreObject(docs, file, parsed);
      docs := docs[file := Object(parsed)];
      var newData := Text(docs[file]);
      r := Ok(newData);
    }

    /** `deleteFile(file)`: the file goes. A missing file rejects the call,
        and neither outcome is logged. */
    method DeleteFile(file: string) returns (r: Result<()>)
      requires Valid()
      modifies this`docs
      ensures Valid()
      ensures file in old(docs) ==> r == Ok(()) && docs == old(docs) - {file}
      ensures file !in old(docs) ==> r == Err(NoSuchFile(file)) && docs == old(docs)
      ensures log == old(log)
    {
      if file !in docs {
        r := Err(NoSuchFile(file));
        return;
      }
      docs := docs - {file};
      r := Ok(());
    }

    /** `createFile(file, content)`: a file that exists, readable or not,
        keeps its content and the attempt is logged as an error; otherwise
        the file is written with `content` and its creation logged. Neither
        outcome rejects. */
    method CreateFile(file: string, content: Entries, now: nat)
      requires Valid() && WellFormed(content)
      modifies this
      ensures Valid()
      ensures file in old(docs) ==>
        docs == old(docs) && log == old(log) + [Entry(ExistsMessage(file), now)]
      ensures file !in old(docs) ==>
        docs == old(docs)[file := Object(content)] && log == old(log) + [Entry(CreatedMessage(file), now)]
    {
      if file in docs {
        var _ := Log(ExistsMessage(file), now, None);
        return;
      }
      StoreObject(docs, file, content);
      docs := docs[file := Object(content)];
      var _ := Log(CreatedMessage(file), now, None);
    }

    /** `mergeData()`: read every file in the order the directory listing
        gives, gather the documents under their trimmed names, and log the
        result; a file that does not parse ends the loop and its fault is
        logged instead. Neither outcome rejects. */
    method MergeData(listing: seq<string>, now: nat)
      requires Distinct(listing) && forall f :: f in listing <==> f in docs
      modifies this`log
      ensures log == old(log) + [Entry(MergeMessage(docs, listing), now)]
    {
      var megaObj: Entries := [];
      var i := 0;
      while i < |listing|
        invariant 0 <= i <= |listing|
        invariant MergeFrom(docs, megaObj, listing[i..]) == Merge(docs, listing)
      {
        var file := listing[i];
        assert listing[i..][0] == file && listing[i..][1..] == listing[i + 1..];
        var trimmedFileName := TrimName(file);
        var loaded := Load(docs, file);
        if loaded.Err? {
          var _ := Log("ERROR " + Describe(loaded.fault), now, None);
          return;
        }
        megaObj := Put(megaObj, trimmedFileName, Obj(loaded.value));
        i := i + 1;
      }
      var _ := Log(Stringify(Obj(megaObj)), now, None);
    }

    /** `union(fileA, fileB)`: log A's keys followed by B's keys that A lacks.
        A file that cannot be read or parsed rejects the call unlogged. */
    method Union(fileA: string, fileB: string, now: nat) returns (r: Result<()>)
      modifies this`log
      ensures match LoadPair(docs, fileA, fileB)
        case Err(f) => r == Err(f) && log == old(log)
        case Ok(p) =>
          r == Ok(()) && log == old(log) + [Entry(Bracketed(UnionKeys(KeysOf(p.0), KeysOf(p.1))), now)]
    {
      var loaded := LoadPair(docs, fileA, fileB);
      if loaded.Err? {
        r := loaded.Rethrow();
        return;
      }
      var keysA, keysB := KeysOf(loaded.value.0), KeysOf(loaded.value.1);
      var props := PushEach([], keysA);
      assert props == keysA;
      props := PushEachNew(props, keysB);
      r := Log(Bracketed(props), now, None);
    }

    /** `intersect(fileA, fileB)`: log A's keys that B has, followed by B's
        keys not collected yet. A file that cannot be read or parsed rejects
        the call unlogged. */
    method Intersect(fileA: string, fileB: string, now: nat) returns (r: Result<()>)
      modifies this`log
      ensures match LoadPair(docs, fileA, fileB)
        case Err(f) => r == Err(f) && log == old(log)
        case Ok(p) =>
          r == Ok(()) && log == old(log) + [Entry(Bracketed(IntersectKeys(KeysOf(p.0), KeysOf(p.1))), now)]
    {
      var loaded := LoadPair(docs, fileA, fileB);
      if loaded.Err? {
        r := loaded.Rethrow();
        return;
      }
      var keysA, keysB := KeysOf(loaded.value.0), KeysOf(loaded.value.1);
      var props := PushEachIn([], keysA, keysB);
      assert props == Shared(keysA, keysB);
      props := PushEachNew(props, keysB);
      r := Log(Bracketed(props), now, None);
    }

    /** `difference(fileA, fileB)`: log A's keys that B lacks, followed by
        B's keys that A lacks. A file that cannot be read or parsed rejects
        the call unlogged. */
    method Difference(fileA: string, fileB: string, now: nat) returns (r: Result<()>)
      modifies this`log
      ensures match LoadPair(docs, fileA, fileB)
        case Err(f) => r == Err(f) && log == old(log)
        case Ok(p) =>
          r == Ok(()) && log == old(log) + [Entry(Bracketed(DifferenceKeys(KeysOf(p.0), KeysOf(p.1))), now)]
    {
      var loaded := LoadPair(docs, fileA, fileB);
      if loaded.Err? {
        r := loaded.Rethrow();
        return;
      }
      var keysA, keysB := KeysOf(loaded.value.0), KeysOf(loaded.value.1);
      var props := PushEachNotIn([], keysA, keysB);
      props := PushEachNotIn(props, keysB, keysA);
      assert props == DifferenceKeys(keysA, keysB);
      r := Log(Bracketed(props), now, None);
    }
  }

  // The `forEach` loops that fill `props` in the three comparisons.

  /** `keys.forEach(key => props.push(key))` */
  method PushEach(props: seq<string>, keys: seq<string>) returns (r: seq<string>)
    ensures r == props + keys
  {
    r := props;
    for i := 0 to |keys|
      invariant r == props + keys[..i]
    {
      r := r + [keys[i]];
    }
    assert keys[..|keys|] == keys;
  }

  /** `keys.forEach(key => { if (!props.includes(key)) props.push(key); })` */
  method PushEachNew(props: seq<string>, keys: seq<string>) returns (r: seq<string>)
    ensures r == AppendNew(props, keys)
  {
    r := props;
    for i := 0 to |keys|
      invariant AppendNew(r, keys[i..]) == AppendNew(props, keys)
    {
      assert keys[i..][0] == keys[i] && keys[i..][1..] == keys[i + 1..];
      if keys[i] !in r {
        r := r + [keys[i]];
      }
    }
  }

  /** `keys.forEach(key => { if (other.includes(key)) props.push(key); })` */
  method PushEachIn(props: seq<string>, keys: seq<string>, other: seq<string>) returns (r: seq<string>)
    ensures r == props + Shared(keys, other)
  {
    r := props;
    for i := 0 to |keys|
      invariant r + Shared(keys[i..], other) == props + Shared(keys, other)
    {
      var key := keys[i];
      assert keys[i..][0] == key && keys[i..][1..] == keys[i + 1..];
      if key in other {
        assert Shared(keys[i..], other) == [key] + Shared(keys[i + 1..], other);
        assert (r + [key]) + Shared(keys[i + 1..], other) == r + ([key] + Shared(keys[i + 1..], other));
        r := r + [key];
      } else {
        assert Shared(keys[i..], other) == Shared(keys[i + 1..], other);
      }
    }
  }

  /** `keys.forEach(key => { if (!other.includes(key)) props.push(key); })` */
  method PushEachNotIn(props: seq<string>, keys: seq<string>, other: seq<string>) returns (r: seq<string>)
    ensures r == props + Missing(keys, other)
  {
    r := props;
    for i := 0 to |keys|
      invariant r + Missing(keys[i..], other) == props + Missing(keys, other)
    {
      var key := keys[i];
      assert keys[i..][0] == key && keys[i..][1..] == keys[i + 1..];
      if key !in other {
        assert Missing(keys[i..], other) == [key] + Missing(keys[i + 1..], other);
        assert (r + [key]) + Missing(keys[i + 1..], other) == r + ([key] + Missing(keys[i + 1..], other));
        r := r + [key];
      } else {
        assert Missing(keys[i..], other) == Missing(keys[i + 1..], other);
      }
    }
  }

  // Sequences of calls, each relying only on the contracts above.

  /** A `set` on a readable document followed by a `get` of the same key
      returns the value that was set, unless that value is falsy. */
  method SetThenGet(s: Store, file: string, key: string, value: Value, t1: nat, t2: nat)
    returns (r: Result<Option<Value>>)
    requires s.Valid() && Load(s.docs, file).Ok?
    modifies s
    ensures r == if Falsy(value) then Ok(None) else Ok(Some(value))
  {
    var _ := s.Set(file, key, value, t1);
    r := s.Get(file, key, t2);
  }

  /** A `remove` on a readable document followed by a `get` of the same key
      finds nothing: only the `get` logs, and it logs the key as invalid. */
  method RemoveThenGet(s: Store, file: string, key: string, t1: nat, t2: nat)
    returns (r: Result<Option<Value>>)
    requires s.Valid() && Load(s.docs, file).Ok?
    modifies s
    ensures r == Ok(None)
    ensures s.log == old(s.log) + [Entry(InvalidKeyMessage(key, file), t2)]
  {
    var _ := s.Remove(file, key, t1);
    r := s.Get(file, key, t2);
  }

  /** In a valid store a `get` of the property at position `i` returns the
      value stored there, when that value is truthy: no earlier property
      shares its name. */
  method GetAt(s: Store, file: string, i: nat, now: nat) returns (r: Result<Option<Value>>)
    requires s.Valid() && file in s.docs && s.docs[file].Object?
    requires i < |s.docs[file].entries| && !Falsy(s.docs[file].entries[i].1)
    modifies s`log
    ensures r == Ok(Some(s.docs[file].entries[i].1))
    ensures s.log == old(s.log) + [Entry(ToText(s.docs[file].entries[i].1), now)]
  {
    LookupAt(s.docs[file].entries, i);
    r := s.Get(file, s.docs[file].entries[i].0, now);
  }

  /** In a valid store a `remove` of the property at position `i` cuts out
      exactly that entry, keeps the others in order, and returns the new
      text. */
  method RemoveAt(s: Store, file: string, i: nat, now: nat) returns (r: Result<string>)
    requires s.Valid() && file in s.docs && s.docs[file].Object?
    requires i < |s.docs[file].entries|
    modifies s
    ensures var e := old(s.docs[file].entries);
      && s.docs == old(s.docs)[file := Object(e[..i] + e[i + 1..])]
      && r == Ok(Stringify(Obj(e[..i] + e[i + 1..])))
    ensures s.log == old(s.log)
  {
    var e := s.docs[file].entries;
    DeleteAt(e, i);
    r := s.Remove(file, e[i].0, now);
  }

  /** Creating a file twice: the second call leaves the first content in
      place and logs that the file already exists. */
  method CreateTwice(s: Store, file: string, first: Entries, second: Entries, t1: nat, t2: nat)
    requires s.Valid() && WellFormed(first) && WellFormed(second) && file !in s.docs
    modifies s
    ensures s.docs == old(s.docs)[file := Object(first)]
    ensures s.log == old(s.log) + [Entry(CreatedMessage(file), t1), Entry(ExistsMessage(file), t2)]
  {
    s.CreateFile(file, first, t1);
    s.CreateFile(file, second, t2);
  }

  /** `getFile` on a file `createFile` has just written returns the
      serialised content and logs it. */
  method CreateThenGetFile(s: Store, file: string, content: Entries, t1: nat, t2: nat)
    returns (r: Result<string>)
    requires s.Valid() && WellFormed(content) && file !in s.docs
    modifies s
    ensures r == Ok(Stringify(Obj(content)))
    ensures s.log == old(s.log) + [Entry(CreatedMessage(file), t1), Entry(Stringify(Obj(content)), t2)]
  {
    s.CreateFile(file, content, t1);
    r := s.GetFile(file, t2);
  }

  /** `deleteFile` undoes `createFile`: the database is as before, and a
      second `deleteFile` rejects because the file is gone. */
  method CreateThenDelete(s: Store, file: string, content: Entries, t1: nat)
    returns (first: Result<()>, second: Result<()>)
    requires s.Valid() && WellFormed(content) && file !in s.docs
    modifies s
    ensures s.docs == old(s.docs)
    ensures first == Ok(()) && second == Err(NoSuchFile(file))
    ensures s.log == old(s.log) + [Entry(CreatedMessage(file), t1)]
  {
    s.CreateFile(file, content, t1);
    first := s.DeleteFile(file);
    second := s.DeleteFile(file);
  }
}
