/** The files of the database directory and what reading one yields. */
module Documents {
  import opened Outcome
  import opened Json
  import opened Objects

  /** The content of one file: text the JSON parser rejects, or a parsed
      object. */
  datatype Doc = Corrupt(text: string) | Object(entries: Entries)

  /** The text a read of the file returns. A parsed document is held in the
      form the store itself writes, JSON.stringify's. */
  function Text(d: Doc): string {
    match d
    case Corrupt(text) => text
    case Object(entries) => Stringify(Obj(entries))
  }

  /** Read a file and parse it: the read fails for a missing file, the parse
      for a corrupt one. */
  function Load(docs: map<string, Doc>, file: string): (r: Result<Entries>)
    ensures r.Ok? <==> file in docs && docs[file].Object?
    ensures r.Ok? ==> r.value == docs[file].entries
    ensures r.Err? ==> r.fault.file == file && (r.fault.NoSuchFile? <==> file !in docs)
  {
    if file !in docs then Err(NoSuchFile(file))
    else if docs[file].Corrupt? then Err(Unparsable(file))
    else Ok(docs[file].entries)
  }

  /** Read two files, then parse them, in that order: a missing file is
      reported before a corrupt one, and A before B. */
  function LoadPair(docs: map<string, Doc>, fileA: string, fileB: string): (r: Result<(Entries, Entries)>)
    ensures r.Ok? <==> Load(docs, fileA).Ok? && Load(docs, fileB).Ok?
    ensures r.Ok? ==> r.value == (Load(docs, fileA).value, Load(docs, fileB).value)
    ensures r.Err? ==> (r.fault.NoSuchFile? <==> fileA !in docs || fileB !in docs)
    ensures r.Err? ==> r.fault.file == fileA || r.fault.file == fileB
    ensures r.Err? && r.fault.file != fileA ==> Load(docs, fileA).Ok? || (fileA in docs && fileB !in docs)
    ensures r.Err? ==> Load(docs, r.fault.file) == Err(r.fault)
  {
    if fileA !in docs then Err(NoSuchFile(fileA))
    else if fileB !in docs then Err(NoSuchFile(fileB))
    else if docs[fileA].Corrupt? then Err(Unparsable(fileA))
    else if docs[fileB].Corrupt? then Err(Unparsable(fileB))
    else Ok((docs[fileA].entries, docs[fileB].entries))
  }
}
