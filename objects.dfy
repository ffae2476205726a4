/** A parsed document: a flat JavaScript object whose properties keep the
    order in which they were first assigned (the order `Object.keys` and
    JSON.stringify report them in). */
module Objects {
  import opened Outcome
  import opened Json
  import opened KeyLists

  type Entries = seq<(string, Value)>

  /** `Object.keys(parsed)` */
  function KeysOf(e: Entries): (ks: seq<string>)
    ensures |ks| == |e|
    decreases |e|
  {
    if e == [] then [] else [e[0].0] + KeysOf(e[1..])
  }

  /** An object never holds the same property twice. */
  predicate WellFormed(e: Entries) {
    Distinct(KeysOf(e))
  }

  /** `parsed[key]`: the value stored under `k`, or nothing. */
  function Lookup(e: Entries, k: string): (r: Option<Value>)
    ensures r.None? <==> k !in KeysOf(e)
    ensures r.Some? ==> (k, r.value) in e
    decreases |e|
  {
    if e == [] then None
    else if e[0].0 == k then Some(e[0].1)
    else Lookup(e[1..], k)
  }

  /** `parsed[key] = value`: an existing property is overwritten where it
      stands; a new one goes last. */
  function Put(e: Entries, k: string, v: Value): (r: Entries)
    ensures Lookup(r, k) == Some(v)
    ensures forall k' | k' != k :: Lookup(r, k') == Lookup(e, k')
    ensures KeysOf(r) == if k in KeysOf(e) then KeysOf(e) else KeysOf(e) + [k]
    decreases |e|
  {
    if e == [] then [(k, v)]
    else
      Cons(e[0], e[1..]);
      if e[0].0 == k then
        Cons((k, v), e[1..]);
        [(k, v)] + e[1..]
      else
        var tail := Put(e[1..], k, v);
        Cons(e[0], tail);
        [e[0]] + tail
  }

  /** `delete parsed[key]`: the property goes, the others keep their order,
      and deleting an absent property changes nothing. */
  function Delete(e: Entries, k: string): (r: Entries)
    ensures Lookup(r, k) == None
    ensures forall k' | k' != k :: Lookup(r, k') == Lookup(e, k')
    ensures KeysOf(r) == Missing(KeysOf(e), [k])
    ensures k !in KeysOf(e) ==> r == e
    decreases |e|
  {
    if e == [] then []
    else
      Cons(e[0], e[1..]);
      if e[0].0 == k then Delete(e[1..], k)
      else
        var tail := Delete(e[1..], k);
        Cons(e[0], tail);
        [e[0]] + tail
  }

  /** An entry in front of a list: its keys and lookups, one step down. */
  lemma Cons(x: (string, Value), rest: Entries)
    ensures KeysOf([x] + rest) == [x.0] + KeysOf(rest)
    ensures forall k :: Lookup([x] + rest, k) == if x.0 == k then Some(x.1) else Lookup(rest, k)
  {
    assert ([x] + rest)[1..] == rest;
  }

  lemma PutWellFormed(e: Entries, k: string, v: Value)
    requires WellFormed(e)
    ensures WellFormed(Put(e, k, v))
  {
  }

  lemma DeleteWellFormed(e: Entries, k: string)
    requires WellFormed(e)
    ensures WellFormed(Delete(e, k))
  {
    MissingDistinct(KeysOf(e), [k]);
  }

  /** In an object, the property at position `i` is what a lookup of its name
      finds. */
  lemma {:induction false} LookupAt(e: Entries, i: nat)
    requires WellFormed(e) && i < |e|
    ensures Lookup(e, e[i].0) == Some(e[i].1)
    decreases i
  {
    if i > 0 {
      var rest := e[1..];
      WellFormedTail(e);
      KeyAt(rest, i - 1);
      assert e[0].0 != rest[i - 1].0 == e[i].0;
      LookupAt(rest, i - 1);
    }
  }

  /** Deleting a property of an object cuts out exactly its entry. */
  lemma {:induction false} DeleteAt(e: Entries, i: nat)
    requires WellFormed(e) && i < |e|
    ensures Delete(e, e[i].0) == e[..i] + e[i + 1..]
    decreases i
  {
    var k, rest := e[i].0, e[1..];
    WellFormedTail(e);
    if i == 0 {
      assert Delete(e, k) == Delete(rest, k) == rest;
    } else {
      KeyAt(rest, i - 1);
      assert e[0].0 != rest[i - 1].0 == k;
      DeleteAt(rest, i - 1);
      assert Delete(e, k) == [e[0]] + Delete(rest, k);
      Uncons(e, i);
    }
  }

  /** Cutting entry `i` out of a list is keeping its head and cutting entry
      `i - 1` out of its tail. */
  lemma Uncons<T>(s: seq<T>, i: nat)
    requires 0 < i < |s|
    ensures [s[0]] + (s[1..][..i - 1] + s[1..][i..]) == s[..i] + s[i + 1..]
  {
    assert s[..i] == [s[0]] + s[1..][..i - 1];
    assert s[i + 1..] == s[1..][i..];
  }

  lemma {:induction false} KeyAt(e: Entries, i: nat)
    requires i < |e|
    ensures KeysOf(e)[i] == e[i].0
    decreases i
  {
    if i > 0 {
      KeyAt(e[1..], i - 1);
    }
  }

  lemma WellFormedTail(e: Entries)
    requires WellFormed(e) && e != []
    ensures WellFormed(e[1..]) && e[0].0 !in KeysOf(e[1..])
  {
    var ks, rest := KeysOf(e), KeysOf(e[1..]);
    assert ks == [e[0].0] + rest;
    forall i, j | 0 <= i < j < |rest| ensures rest[i] != rest[j] {
      assert rest[i] == ks[i + 1] && rest[j] == ks[j + 1];
    }
    forall j | 0 <= j < |rest| ensures rest[j] != e[0].0 {
      assert rest[j] == ks[j + 1] && e[0].0 == ks[0];
    }
  }
}
