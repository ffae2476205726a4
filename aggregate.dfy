/** `mergeData`: one object holding every document of the database, each
    under its file name cut at the first dot. */
module Aggregate {
  import opened Outcome
  import opened Json
  import opened KeyLists
  import opened Objects
  import opened Documents

  /** `s.indexOf(c)`: the first position of `c`, or -1. */
  function IndexOf(s: string, c: char): (i: int)
    ensures -1 <= i < |s|
    ensures i == -1 <==> c !in s
    ensures 0 <= i ==> s[i] == c && c !in s[..i]
    decreases |s|
  {
    if s == [] then -1
    else if s[0] == c then 0
    else
      var j := IndexOf(s[1..], c);
      if j == -1 then -1
      else
        assert s[..j + 1] == [s[0]] + s[1..][..j];
        j + 1
  }

  /** How `slice` reads a position: a negative one counts from the end, and
      either kind is clamped to the string. */
  function SlicePosition(i: int, len: nat): nat {
    if i < 0 then (if len + i < 0 then 0 else len + i)
    else if i > len then len
    else i
  }

  /** `s.slice(start, end)` */
  function Slice(s: string, start: int, end: int): (r: string)
    ensures |r| <= |s|
    ensures 0 <= start <= end <= |s| ==> r == s[start..end]
    ensures end < 0 && 0 <= start <= |s| + end ==> r == s[start..|s| + end]
    ensures end < 0 && |s| + end < start ==> r == []
  {
    var from, to := SlicePosition(start, |s|), SlicePosition(end, |s|);
    if from < to then s[from..to] else ""
  }

  /** `file.slice(0, file.indexOf('.'))`: a name with a dot loses everything
      from its first dot on; a name without one has indexOf -1, which slice
      reads as "one before the end", so it loses its last character. */
  function TrimName(name: string): (r: string)
    ensures '.' in name ==> |r| < |name| && r == name[..|r|] && name[|r|] == '.' && '.' !in r
    ensures '.' !in name && name != [] ==> r + [name[|name| - 1]] == name
    ensures name == [] ==> r == []
  {
    Slice(name, 0, IndexOf(name, '.'))
  }

  /** The first occurrence is the only answer `IndexOf` can give. */
  lemma IndexOfAt(s: string, c: char, i: nat)
    requires i < |s| && s[i] == c && c !in s[..i]
    ensures IndexOf(s, c) == i
  {
    assert s[i] in s;
    var j := IndexOf(s, c);
    assert forall k | 0 <= k < i :: s[..i][k] == s[k];
    assert forall k | 0 <= k < j :: s[..j][k] == s[k];
  }

  lemma TrimNameWithExtension()
    ensures TrimName("scott.json") == "scott"
  {
    var name := "scott.json";
    assert name[..5] == "scott";
    IndexOfAt(name, '.', 5);
  }

  lemma TrimNameWithoutDot()
    ensures TrimName("README") == "READM"
  {
    var name := "README";
    assert '.' !in name;
    assert name[..5] == "READM";
  }

  /** The aggregate keys of the listed files, in listing order. */
  function Trimmed(listing: seq<string>): (r: seq<string>)
    ensures |r| == |listing|
    ensures forall i | 0 <= i < |listing| :: r[i] == TrimName(listing[i])
  {
    seq(|listing|, i requires 0 <= i < |listing| => TrimName(listing[i]))
  }

  /** The loop of `mergeData` from some point on: `acc` is what has been
      assembled so far and `rest` the files still to read. The first file
      that cannot be read or parsed ends it. */
  function MergeFrom(docs: map<string, Doc>, acc: Entries, rest: seq<string>): Result<Entries>
    decreases |rest|
  {
    if rest == [] then Ok(acc)
    else
      match Load(docs, rest[0])
      case Err(f) => Err(f)
      case Ok(e) => MergeFrom(docs, Put(acc, TrimName(rest[0]), Obj(e)), rest[1..])
  }

  /** The aggregate of the files in `listing`, read in that order. */
  function Merge(docs: map<string, Doc>, listing: seq<string>): Result<Entries> {
    MergeFrom(docs, [], listing)
  }

  /** No later file of `listing` has the same aggregate key as file `j`. */
  predicate LastOfName(listing: seq<string>, j: nat)
    requires j < |listing|
  {
    forall i | j < i < |listing| :: TrimName(listing[i]) != TrimName(listing[j])
  }

  /** The aggregation succeeds exactly when every listed file loads. */
  lemma {:induction false} MergeFromOk(docs: map<string, Doc>, acc: Entries, rest: seq<string>)
    ensures MergeFrom(docs, acc, rest).Ok? <==> forall f | f in rest :: Load(docs, f).Ok?
    decreases |rest|
  {
    if rest != [] {
      assert forall f | f in rest :: f == rest[0] || f in rest[1..];
      if Load(docs, rest[0]).Ok? {
        MergeFromOk(docs, Put(acc, TrimName(rest[0]), Obj(Load(docs, rest[0]).value)), rest[1..]);
      }
    }
  }

  /** A failed aggregation reports the fault of the first listed file that
      does not load. */
  lemma {:induction false} MergeFromErr(docs: map<string, Doc>, acc: Entries, rest: seq<string>)
    requires MergeFrom(docs, acc, rest).Err?
    ensures exists j | 0 <= j < |rest| ::
      && Load(docs, rest[j]) == MergeFrom(docs, acc, rest).Rethrow()
      && forall i | 0 <= i < j :: Load(docs, rest[i]).Ok?
    decreases |rest|, 1
  {
    if Load(docs, rest[0]).Err? {
      assert Load(docs, rest[0]) == MergeFrom(docs, acc, rest).Rethrow();
    } else {
      MergeFromErrLater(docs, acc, rest);
    }
  }

  /** When the first file loads, the failure lies further on. */
  lemma {:induction false} MergeFromErrLater(docs: map<string, Doc>, acc: Entries, rest: seq<string>)
    requires MergeFrom(docs, acc, rest).Err? && rest != [] && Load(docs, rest[0]).Ok?
    ensures exists j | 0 <= j < |rest| ::
      && Load(docs, rest[j]) == MergeFrom(docs, acc, rest).Rethrow()
      && forall i | 0 <= i < j :: Load(docs, rest[i]).Ok?
    decreases |rest|, 0
  {
    var acc' := MergeFromNext(docs, acc, rest);
    var tail := rest[1..];
    MergeFromErr(docs, acc', tail);
    var f := MergeFrom(docs, acc, rest).fault;
    var j :| 0 <= j < |tail| && Load(docs, tail[j]) == Err(f) && forall i | 0 <= i < j :: Load(docs, tail[i]).Ok?;
    FirstFailureShift(docs, rest, j, f);
  }

  /** One turn of the loop when the first file loads. */
  lemma MergeFromNext(docs: map<string, Doc>, acc: Entries, rest: seq<string>) returns (acc': Entries)
    requires rest != [] && Load(docs, rest[0]).Ok?
    ensures MergeFrom(docs, acc', rest[1..]) == MergeFrom(docs, acc, rest)
  {
    acc' := Put(acc, TrimName(rest[0]), Obj(Load(docs, rest[0]).value));
  }

  /** The first failure in the tail, behind a file that loads, is the first
      failure of the whole list. */
  lemma FirstFailureShift(docs: map<string, Doc>, rest: seq<string>, j: nat, f: Fault)
    requires rest != [] && Load(docs, rest[0]).Ok? && j < |rest| - 1
    requires Load(docs, rest[1..][j]) == Err(f) && forall i | 0 <= i < j :: Load(docs, rest[1..][i]).Ok?
    ensures Load(docs, rest[j + 1]) == Err(f) && forall i | 0 <= i < j + 1 :: Load(docs, rest[i]).Ok?
  {
    forall i | 0 <= i < j + 1 ensures Load(docs, rest[i]).Ok? {
      if i > 0 { assert rest[i] == rest[1..][i - 1]; }
    }
  }

  /** The aggregate's keys are the listed files' trimmed names, each once, in
      the order each first occurs. */
  lemma {:induction false} MergeFromKeys(docs: map<string, Doc>, acc: Entries, rest: seq<string>)
    requires MergeFrom(docs, acc, rest).Ok?
    ensures KeysOf(MergeFrom(docs, acc, rest).value) == AppendNew(KeysOf(acc), Trimmed(rest))
    decreases |rest|
  {
    if rest != [] {
      var e := Load(docs, rest[0]).value;
      var acc' := Put(acc, TrimName(rest[0]), Obj(e));
      MergeFromKeys(docs, acc', rest[1..]);
      assert Trimmed(rest)[1..] == Trimmed(rest[1..]);
    }
  }

  /** A name that no remaining file trims to keeps the value `acc` gave it. */
  lemma {:induction false} MergeFromUntouched(docs: map<string, Doc>, acc: Entries, rest: seq<string>, k: string)
    requires MergeFrom(docs, acc, rest).Ok?
    requires k !in Trimmed(rest)
    ensures Lookup(MergeFrom(docs, acc, rest).value, k) == Lookup(acc, k)
    decreases |rest|
  {
    if rest != [] {
      var e := Load(docs, rest[0]).value;
      var acc' := Put(acc, TrimName(rest[0]), Obj(e));
      var tail := rest[1..];
      assert Trimmed(rest)[0] == TrimName(rest[0]);
      assert Trimmed(tail) == Trimmed(rest)[1..];
      MergeFromUntouched(docs, acc', tail, k);
    }
  }

  /** Under each trimmed name the aggregate `m` holds the contents of the
      last listed file with that name. */
  lemma {:induction false} MergeFromValues(docs: map<string, Doc>, acc: Entries, rest: seq<string>, j: nat, m: Entries)
    requires MergeFrom(docs, acc, rest) == Ok(m)
    requires j < |rest| && LastOfName(rest, j)
    ensures Load(docs, rest[j]).Ok?
    ensures Lookup(m, TrimName(rest[j])) == Some(Obj(Load(docs, rest[j]).value))
    decreases |rest|, 1
  {
    if j == 0 {
      MergeFromFirst(docs, acc, rest, m);
    } else {
      MergeFromLater(docs, acc, rest, j, m);
    }
  }

  /** The first file, when no later file shares its name, gives the final
      value under that name. */
  lemma MergeFromFirst(docs: map<string, Doc>, acc: Entries, rest: seq<string>, m: Entries)
    requires MergeFrom(docs, acc, rest) == Ok(m)
    requires 0 < |rest| && LastOfName(rest, 0)
    ensures Load(docs, rest[0]).Ok?
    ensures Lookup(m, TrimName(rest[0])) == Some(Obj(Load(docs, rest[0]).value))
  {
    var acc' := MergeFromStep(docs, acc, rest);
    LastIsNotAhead(rest);
    MergeFromUntouched(docs, acc', rest[1..], TrimName(rest[0]));
  }

  /** A later file's value comes from the rest of the loop. */
  lemma {:induction false} MergeFromLater(docs: map<string, Doc>, acc: Entries, rest: seq<string>, j: nat, m: Entries)
    requires MergeFrom(docs, acc, rest) == Ok(m)
    requires 0 < j < |rest| && LastOfName(rest, j)
    ensures Load(docs, rest[j]).Ok?
    ensures Lookup(m, TrimName(rest[j])) == Some(Obj(Load(docs, rest[j]).value))
    decreases |rest|, 0
  {
    var acc' := MergeFromStep(docs, acc, rest);
    LastOfNameTail(rest, j);
    MergeFromValues(docs, acc', rest[1..], j - 1, m);
  }

  /** One turn of the loop: the first file loads and is folded in. */
  lemma MergeFromStep(docs: map<string, Doc>, acc: Entries, rest: seq<string>) returns (acc': Entries)
    requires MergeFrom(docs, acc, rest).Ok? && rest != []
    ensures Load(docs, rest[0]).Ok?
    ensures acc' == Put(acc, TrimName(rest[0]), Obj(Load(docs, rest[0]).value))
    ensures MergeFrom(docs, acc', rest[1..]) == MergeFrom(docs, acc, rest)
  {
    acc' := Put(acc, TrimName(rest[0]), Obj(Load(docs, rest[0]).value));
  }


  /** A first file that is last of its name shares it with no later file. */
  lemma LastIsNotAhead(rest: seq<string>)
    requires 0 < |rest| && LastOfName(rest, 0)
    ensures TrimName(rest[0]) !in Trimmed(rest[1..])
  {
    var tail := rest[1..];
    forall i | 0 <= i < |tail| ensures Trimmed(tail)[i] != TrimName(rest[0]) {
      assert tail[i] == rest[i + 1];
    }
  }

  /** Being last of its name survives dropping the first file. */
  lemma LastOfNameTail(rest: seq<string>, j: nat)
    requires 0 < j < |rest| && LastOfName(rest, j)
    ensures LastOfName(rest[1..], j - 1) && rest[1..][j - 1] == rest[j]
  {
    var tail := rest[1..];
    forall i | j - 1 < i < |tail| ensures TrimName(tail[i]) != TrimName(tail[j - 1]) {
      assert tail[i] == rest[i + 1];
    }
  }

  /** What `mergeData` promises about a successful aggregation: one key per
      distinct trimmed file name, in first-seen order, each holding the
      contents of the last file listed under that name. */
  lemma MergeSpec(docs: map<string, Doc>, listing: seq<string>)
    requires Merge(docs, listing).Ok?
    ensures var m := Merge(docs, listing).value;
      && KeysOf(m) == AppendNew([], Trimmed(listing))
      && WellFormed(m)
      && (forall k :: k in KeysOf(m) <==> k in Trimmed(listing))
      && (forall j | 0 <= j < |listing| && LastOfName(listing, j) ::
            Load(docs, listing[j]).Ok? && Lookup(m, TrimName(listing[j])) == Some(Obj(Load(docs, listing[j]).value)))
  {
    MergeFromKeys(docs, [], listing);
    AppendNewDistinct([], Trimmed(listing));
    forall j | 0 <= j < |listing| && LastOfName(listing, j)
      ensures Load(docs, listing[j]).Ok?
      ensures Lookup(Merge(docs, listing).value, TrimName(listing[j])) == Some(Obj(Load(docs, listing[j]).value))
    {
      MergeFromValues(docs, [], listing, j, Merge(docs, listing).value);
    }
  }
}
