/** Lists of document keys, and the three comparisons the store makes between
    the key lists of two documents. Each list keeps the order in which its
    keys were collected, as the source's `props` arrays do. */
module KeyLists {
  import opened Json

  predicate Distinct(s: seq<string>) {
    forall i, j | 0 <= i < j < |s| :: s[i] != s[j]
  }

  function Elements(s: seq<string>): set<string> {
    set x | x in s
  }

  /** The keys of `s` that do not occur in `t`, in the order of `s`. */
  function Missing(s: seq<string>, t: seq<string>): (r: seq<string>)
    ensures forall x :: x in r <==> x in s && x !in t
    decreases |s|
  {
    if s == [] then []
    else (if s[0] in t then [] else [s[0]]) + Missing(s[1..], t)
  }

  /** The keys of `s` that also occur in `t`, in the order of `s`. */
  function Shared(s: seq<string>, t: seq<string>): (r: seq<string>)
    ensures forall x :: x in r <==> x in s && x in t
    decreases |s|
  {
    if s == [] then []
    else (if s[0] in t then [s[0]] else []) + Shared(s[1..], t)
  }

  /** One step of the source's second loop: push `k` unless `props` has it. */
  function PushNew(props: seq<string>, k: string): seq<string> {
    if k in props then props else props + [k]
  }

  /** The second loop of every comparison: push each key of `s`, in order,
      that is not collected yet. What was collected stays a prefix, and the
      result holds exactly the keys of both lists. */
  function AppendNew(props: seq<string>, s: seq<string>): (r: seq<string>)
    ensures forall x :: x in r <==> x in props || x in s
    ensures |props| <= |r| && r[..|props|] == props
    decreases |s|
  {
    if s == [] then props else AppendNew(PushNew(props, s[0]), s[1..])
  }

  /** A key that is not in `s` does not change what `Missing` keeps of `s`. */
  lemma {:induction false} MissingIgnores(s: seq<string>, t: seq<string>, x: string)
    requires x !in s
    ensures Missing(s, t + [x]) == Missing(s, t)
    decreases |s|
  {
    if s != [] {
      MissingIgnores(s[1..], t, x);
    }
  }

  /** When the pushed keys are themselves duplicate-free, pushing the new ones
      appends exactly the keys not collected before, in their own order. */
  lemma {:induction false} AppendNewIsMissing(props: seq<string>, s: seq<string>)
    requires Distinct(s)
    ensures AppendNew(props, s) == props + Missing(s, props)
    decreases |s|
  {
    if s == [] {
      assert props + [] == props;
    } else {
      DistinctTail(s);
      AppendNewIsMissing(PushNew(props, s[0]), s[1..]);
      AppendNewStep(props, s);
    }
  }

  lemma AppendNewStep(props: seq<string>, s: seq<string>)
    requires s != [] && s[0] !in s[1..]
    requires AppendNew(PushNew(props, s[0]), s[1..]) == PushNew(props, s[0]) + Missing(s[1..], PushNew(props, s[0]))
    ensures AppendNew(props, s) == props + Missing(s, props)
  {
    if s[0] in props {
      MissingKnownHead(props, s);
    } else {
      MissingNewHead(props, s);
    }
  }

  /** A first key already collected is skipped. */
  lemma MissingKnownHead(props: seq<string>, s: seq<string>)
    requires s != [] && s[0] in props
    ensures Missing(s, props) == Missing(s[1..], props)
  {
  }

  /** A first key not collected yet is the first key kept, and the rest are
      kept as against the list with it pushed. */
  lemma MissingNewHead(props: seq<string>, s: seq<string>)
    requires s != [] && s[0] !in s[1..] && s[0] !in props
    ensures props + Missing(s, props) == (props + [s[0]]) + Missing(s[1..], props + [s[0]])
  {
    var x, rest := s[0], s[1..];
    MissingIgnores(rest, props, x);
    assert Missing(s, props) == [x] + Missing(rest, props);
    assert (props + [x]) + Missing(rest, props) == props + ([x] + Missing(rest, props));
  }

  lemma DistinctTail(s: seq<string>)
    requires Distinct(s) && s != []
    ensures Distinct(s[1..]) && s[0] !in s[1..]
  {
  }

  lemma {:induction false} MissingDistinct(s: seq<string>, t: seq<string>)
    requires Distinct(s)
    ensures Distinct(Missing(s, t))
    decreases |s|
  {
    if s != [] {
      var rest := s[1..];
      assert Distinct(rest);
      MissingDistinct(rest, t);
      assert s[0] !in Missing(rest, t);
      DistinctConcat(if s[0] in t then [] else [s[0]], Missing(rest, t));
    }
  }

  lemma {:induction false} SharedDistinct(s: seq<string>, t: seq<string>)
    requires Distinct(s)
    ensures Distinct(Shared(s, t))
    decreases |s|
  {
    if s != [] {
      var rest := s[1..];
      assert Distinct(rest);
      SharedDistinct(rest, t);
      assert s[0] !in Shared(rest, t);
      DistinctConcat(if s[0] in t then [s[0]] else [], Shared(rest, t));
    }
  }

  /** Pushing only absent keys keeps a duplicate-free list duplicate-free. */
  lemma {:induction false} AppendNewDistinct(props: seq<string>, s: seq<string>)
    requires Distinct(props)
    ensures Distinct(AppendNew(props, s))
    decreases |s|
  {
    if s != [] {
      var next := PushNew(props, s[0]);
      if s[0] !in props {
        DistinctConcat(props, [s[0]]);
      }
      AppendNewDistinct(next, s[1..]);
    }
  }

  /** Two duplicate-free lists with no common key join into one. */
  lemma DistinctConcat(x: seq<string>, y: seq<string>)
    requires Distinct(x) && Distinct(y)
    requires forall e :: e in x ==> e !in y
    ensures Distinct(x + y)
  {
    var r := x + y;
    forall i, j | 0 <= i < j < |r| ensures r[i] != r[j] {
      if j < |x| {
        assert r[i] == x[i] && r[j] == x[j];
      } else if i >= |x| {
        assert r[i] == y[i - |x|] && r[j] == y[j - |x|];
      } else {
        assert r[i] == x[i] && r[j] == y[j - |x|];
        assert r[i] in x;
      }
    }
  }

  /** A duplicate-free list has as many elements as it has distinct members. */
  lemma {:induction false} DistinctCount(s: seq<string>)
    requires Distinct(s)
    ensures |Elements(s)| == |s|
    decreases |s|
  {
    if s != [] {
      var rest := s[1..];
      assert Distinct(rest);
      DistinctCount(rest);
      assert Elements(s) == Elements(rest) + {s[0]};
      assert s[0] !in Elements(rest);
    }
  }

  // ---------------------------------------------------------------------
  // The three comparisons

  /** `union`: every key of A, then the keys of B that A lacks. */
  function UnionKeys(a: seq<string>, b: seq<string>): seq<string> {
    AppendNew(a, b)
  }

  /** `intersect` as written: the keys of A found in B, then every key of B
      not collected yet. */
  function IntersectKeys(a: seq<string>, b: seq<string>): seq<string> {
    AppendNew(Shared(a, b), b)
  }

  /** `difference`: the keys of A absent from B, then those of B absent from A. */
  function DifferenceKeys(a: seq<string>, b: seq<string>): seq<string> {
    Missing(a, b) + Missing(b, a)
  }

  lemma UnionSpec(a: seq<string>, b: seq<string>)
    requires Distinct(a) && Distinct(b)
    ensures UnionKeys(a, b) == a + Missing(b, a)
    ensures Distinct(UnionKeys(a, b))
    ensures forall x :: x in UnionKeys(a, b) <==> x in a || x in b
    ensures |UnionKeys(a, b)| == |Elements(a) + Elements(b)|
  {
    var r := UnionKeys(a, b);
    AppendNewIsMissing(a, b);
    MissingDistinct(b, a);
    DistinctConcat(a, Missing(b, a));
    DistinctCount(r);
    assert Elements(r) == Elements(a) + Elements(b);
  }

  /** The source's intersection holds every key of B once and nothing else,
      so it has exactly as many keys as B. */
  lemma IntersectSpec(a: seq<string>, b: seq<string>)
    requires Distinct(a) && Distinct(b)
    ensures IntersectKeys(a, b) == Shared(a, b) + Missing(b, Shared(a, b))
    ensures Distinct(IntersectKeys(a, b))
    ensures forall x :: x in IntersectKeys(a, b) <==> x in b
    ensures |IntersectKeys(a, b)| == |b|
  {
    var r := IntersectKeys(a, b);
    var common := Shared(a, b);
    AppendNewIsMissing(common, b);
    SharedDistinct(a, b);
    MissingDistinct(b, common);
    DistinctConcat(common, Missing(b, common));
    DistinctCount(r);
    DistinctCount(b);
    assert Elements(r) == Elements(b);
  }

  /** The source's intersection equals the keys the two documents share
      exactly when every key of B is also a key of A. */
  lemma IntersectIsSharedIff(a: seq<string>, b: seq<string>)
    requires Distinct(a) && Distinct(b)
    ensures IntersectKeys(a, b) == Shared(a, b) <==> forall x :: x in b ==> x in a
  {
    if forall x :: x in b ==> x in a {
      IntersectIsShared(a, b);
    } else {
      var x :| x in b && x !in a;
      IntersectNotShared(a, b, x);
    }
  }

  /** When every key of B is a key of A, intersect gives the shared keys. */
  lemma IntersectIsShared(a: seq<string>, b: seq<string>)
    requires Distinct(b)
    requires forall x :: x in b ==> x in a
    ensures IntersectKeys(a, b) == Shared(a, b)
  {
    var common := Shared(a, b);
    AppendNewIsMissing(common, b);
    MissingNone(b, common);
  }

  /** A key of B alone is in what intersect gives, though it is not shared. */
  lemma IntersectNotShared(a: seq<string>, b: seq<string>, x: string)
    requires x in b && x !in a
    ensures x in IntersectKeys(a, b) && x !in Shared(a, b)
  {
  }

  /** Nothing is missing from `t` when every key of `s` is in it. */
  lemma {:induction false} MissingNone(s: seq<string>, t: seq<string>)
    requires forall x :: x in s ==> x in t
    ensures Missing(s, t) == []
    decreases |s|
  {
    if s != [] {
      assert s[0] in s;
      MissingNone(s[1..], t);
    }
  }

  /** `difference` is the symmetric difference of the two key lists: no key
      of both documents, every key of just one of them, each once. */
  lemma DifferenceSpec(a: seq<string>, b: seq<string>)
    requires Distinct(a) && Distinct(b)
    ensures Distinct(DifferenceKeys(a, b))
    ensures forall x :: x in DifferenceKeys(a, b) <==> (x in a && x !in b) || (x in b && x !in a)
    ensures forall x :: x in DifferenceKeys(a, b) ==> !(x in a && x in b)
  {
    MissingDistinct(a, b);
    MissingDistinct(b, a);
    DistinctConcat(Missing(a, b), Missing(b, a));
  }

  // ---------------------------------------------------------------------
  // How a key list is logged: `[${props}]`

  /** The elements joined with commas, as an array converts to a string. */
  function Join(ks: seq<string>): string
    decreases |ks|
  {
    if ks == [] then ""
    else if |ks| == 1 then ks[0]
    else ks[0] + "," + Join(ks[1..])
  }

  function Bracketed(ks: seq<string>): string {
    "[" + Join(ks) + "]"
  }

  /** The key list as the array of strings it is in the source. */
  function StrArray(ks: seq<string>): (v: Value)
    ensures v.Arr? && |v.items| == |ks|
  {
    Arr(seq(|ks|, i requires 0 <= i < |ks| => Str(ks[i])))
  }

  /** `Join` is JavaScript's conversion of an array of strings, from any
      position on. */
  lemma {:induction false} JoinFrom(ks: seq<string>, i: nat)
    requires i <= |ks|
    ensures ItemsText(StrArray(ks), i) == if i == |ks| then "" else (if i == 0 then "" else ",") + Join(ks[i..])
    decreases |ks| - i
  {
    if i < |ks| {
      var v := StrArray(ks);
      assert v.items[i] == Str(ks[i]);
      JoinFrom(ks, i + 1);
      if i + 1 < |ks| {
        assert ks[i..][1..] == ks[i + 1..];
      }
    }
  }

  /** What the comparisons log, `[${props}]`, is the array's string
      conversion in brackets. */
  lemma BracketedIsToText(ks: seq<string>)
    ensures Bracketed(ks) == "[" + ToText(StrArray(ks)) + "]"
  {
    JoinFrom(ks, 0);
    assert ks[0..] == ks;
  }

  lemma BracketedExample()
    ensures Bracketed(["firstname", "lastname"]) == "[firstname,lastname]"
    ensures Bracketed([]) == "[]"
  {
  }

  // ---------------------------------------------------------------------
  // The documented example: scott.json has firstname, lastname, email and
  // username; andrew.json has firstname, lastname and email.

  const Scott: seq<string> := ["firstname", "lastname", "email", "username"]
  const Andrew: seq<string> := ["firstname", "lastname", "email"]

  lemma UnionExample()
    ensures UnionKeys(Scott, Andrew) == ["firstname", "lastname", "email", "username"]
  {
  }

  lemma DifferenceExample()
    ensures DifferenceKeys(Scott, Andrew) == ["username"]
  {
  }

  /** Every key of `s` is shared with `t`: `Shared` keeps them all. */
  lemma {:induction false} SharedAll(s: seq<string>, t: seq<string>)
    requires forall x :: x in s ==> x in t
    ensures Shared(s, t) == s
    decreases |s|
  {
    if s != [] {
      assert s[0] in s;
      SharedAll(s[1..], t);
    }
  }

  lemma ExampleLists()
    ensures Distinct(Scott) && Distinct(Andrew)
    ensures forall x :: x in Andrew ==> x in Scott
    ensures Scott == Andrew + ["username"]
  {
  }

  lemma ExampleShared()
    ensures Shared(Scott, Andrew) == Andrew
  {
  }

  lemma ExampleMissing()
    ensures Missing(Scott, Andrew) == ["username"]
  {
  }

  /** intersect(scott, andrew) gives the shared keys, as the documented
      example says. */
  lemma IntersectExample()
    ensures IntersectKeys(Scott, Andrew) == ["firstname", "lastname", "email"]
  {
    ExampleLists();
    ExampleShared();
    AppendNewIsMissing(Andrew, Andrew);
    MissingNone(Andrew, Andrew);
  }

  /** With the arguments swapped the source's intersect returns all four
      keys of scott, although the two documents share only three. */
  lemma IntersectSwappedExample()
    ensures IntersectKeys(Andrew, Scott) == Scott
    ensures Shared(Andrew, Scott) == Andrew
  {
    ExampleLists();
    SharedAll(Andrew, Scott);
    AppendNewIsMissing(Andrew, Scott);
    ExampleMissing();
  }
}
