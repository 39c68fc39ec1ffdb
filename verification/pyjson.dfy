/** JSON values as Python's `json` module hands them to the program, and Python
    dicts as the ordered sequence of their entries (dicts keep insertion order). */
module PyJson {
  import opened Wrappers

  /** A parsed JSON value. `JNum` carries Python's `repr` of the parsed number,
      which is also its `str`. An object is the ordered list of its entries. */
  datatype Json =
    | JNull
    | JBool(b: bool)
    | JNum(repr: string)
    | JStr(s: string)
    | JList(items: seq<Json>)
    | JObj(fields: seq<(string, Json)>)

  /** Python truthiness (`if v:`): `None`, `False`, zero and empty containers are false. */
  predicate Truthy(v: Json) {
    match v
    case JNull => false
    case JBool(b) => b
    case JNum(r) => r !in {"0", "0.0", "-0.0"}
    case JStr(s) => s != []
    case JList(items) => items != []
    case JObj(fields) => fields != []
  }

  /** The keys of a dict, in order. */
  function Keys<V>(d: seq<(string, V)>): (ks: seq<string>)
    ensures |ks| == |d|
    ensures forall i :: 0 <= i < |d| ==> ks[i] == d[i].0
  {
    if d == [] then [] else [d[0].0] + Keys(d[1..])
  }

  predicate Distinct<T(==)>(s: seq<T>) {
    forall i, j :: 0 <= i < j < |s| ==> s[i] != s[j]
  }

  /** What every Python dict satisfies: no key occurs twice. */
  predicate DistinctKeys<V>(d: seq<(string, V)>) {
    Distinct(Keys(d))
  }

  /** `d.get(k)`: the value stored under `k`, or `None`. */
  function Get<V>(d: seq<(string, V)>, k: string): (r: Option<V>)
    ensures r.None? <==> k !in Keys(d)
  {
    if d == [] then None
    else if d[0].0 == k then Some(d[0].1)
    else Get(d[1..], k)
  }

  /** `d[k] = v`: overwrites the value of an existing key where it stands, or
      adds a new entry at the end. */
  function Insert<V>(d: seq<(string, V)>, k: string, v: V): (r: seq<(string, V)>)
    ensures Keys(r) == if k in Keys(d) then Keys(d) else Keys(d) + [k]
  {
    if d == [] then [(k, v)]
    else if d[0].0 == k then [(k, v)] + d[1..]
    else
      assert Keys(d) == [d[0].0] + Keys(d[1..]);
      [d[0]] + Insert(d[1..], k, v)
  }

  /** The elements of `s` in order of first occurrence, each once. */
  function Dedup(s: seq<string>): (r: seq<string>)
    ensures Distinct(r)
    ensures forall x :: x in r <==> x in s
  {
    if s == [] then []
    else
      var p := Dedup(s[..|s| - 1]);
      assert s == s[..|s| - 1] + [s[|s| - 1]];
      if s[|s| - 1] in p then p else p + [s[|s| - 1]]
  }

  /** Index of the first occurrence of `x` in `s` (`s.index(x)`). */
  function FirstIndex<T(==)>(s: seq<T>, x: T): (i: nat)
    requires x in s
    ensures i < |s| && s[i] == x && x !in s[..i]
  {
    var n := |s| - 1;
    if x in s[..n] then FirstIndex(s[..n], x)
    else
      assert s == s[..n] + [s[n]];
      n
  }

  // ---------------------------------------------------------------- lemmas

  /** An element of `Dedup(s)` of a longer sequence that `Dedup` of the prefix
      already holds first occurs in that prefix. */
  lemma FirstIndexPrefix(s: seq<string>, x: string)
    requires s != [] && x in Dedup(s[..|s| - 1])
    ensures FirstIndex(s, x) == FirstIndex(s[..|s| - 1], x) < |s| - 1
  {
  }

  /** `Dedup` keeps the elements in the order of their first occurrences. */
  lemma {:induction false} DedupOrder(s: seq<string>)
    ensures forall i, j :: 0 <= i < j < |Dedup(s)| ==>
      FirstIndex(s, Dedup(s)[i]) < FirstIndex(s, Dedup(s)[j])
  {
    if s != [] {
      var n := |s| - 1;
      var p := Dedup(s[..n]);
      var r := Dedup(s);
      DedupOrder(s[..n]);
      forall i, j | 0 <= i < j < |r|
        ensures FirstIndex(s, r[i]) < FirstIndex(s, r[j])
      {
        FirstIndexPrefix(s, p[i]);
        if j < |p| {
          FirstIndexPrefix(s, p[j]);
        } else {
          assert r[j] == s[n] && s[n] !in s[..n];
        }
      }
    }
  }

  /** Dropping the last element keeps a sequence distinct, and that element does
      not occur before it. */
  lemma DistinctSnoc<T>(s: seq<T>)
    requires Distinct(s) && s != []
    ensures Distinct(s[..|s| - 1]) && s[|s| - 1] !in s[..|s| - 1]
  {
  }

  /** After `d[k] = v`, `k` maps to `v` and every other key to what it mapped to. */
  lemma {:induction false} InsertGet<V>(d: seq<(string, V)>, k: string, v: V, k': string)
    ensures Get(Insert(d, k, v), k') == if k' == k then Some(v) else Get(d, k')
  {
    if d != [] && d[0].0 != k {
      InsertGet(d[1..], k, v, k');
    }
  }

  /** Inserting into a dict keeps its keys distinct. */
  lemma InsertDistinct<V>(d: seq<(string, V)>, k: string, v: V)
    requires DistinctKeys(d)
    ensures DistinctKeys(Insert(d, k, v))
  {
  }

  /** Inserting a key the dict does not hold appends one entry. */
  lemma {:induction false} InsertFresh<V>(d: seq<(string, V)>, k: string, v: V)
    requires k !in Keys(d)
    ensures Insert(d, k, v) == d + [(k, v)]
  {
    if d != [] {
      assert Keys(d) == [d[0].0] + Keys(d[1..]);
      InsertFresh(d[1..], k, v);
    }
  }

  /** In a dict, looking up the key of an entry finds that entry's value. */
  lemma {:induction false} GetAt<V>(d: seq<(string, V)>, i: nat)
    requires DistinctKeys(d) && i < |d|
    ensures Get(d, d[i].0) == Some(d[i].1)
  {
    if i > 0 {
      assert Keys(d) == [d[0].0] + Keys(d[1..]);
      assert d[0].0 != d[i].0;
      GetAt(d[1..], i - 1);
    }
  }
}
