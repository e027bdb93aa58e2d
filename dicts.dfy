/** Python's insertion-ordered `dict` with string keys, as the bridge uses it for
    the caller's arguments and for the decoded return values. */
module Dicts {
  import opened Wrappers

  /** The entries of a dict in insertion order. */
  type Entries<V> = seq<(string, V)>

  /** No key occurs twice: every Python dict has this shape. */
  predicate DistinctKeys<V>(e: Entries<V>)
  {
    forall i, j :: 0 <= i < j < |e| ==> e[i].0 != e[j].0
  }

  /** `d.get(k)`: the value stored under the first entry with key `k`, if any. */
  function Lookup<V>(e: Entries<V>, k: string): Option<V>
    decreases |e|
  {
    if e == [] then None
    else if e[0].0 == k then Some(e[0].1)
    else Lookup(e[1..], k)
  }

  /** `d[k] = v`: overwrites the value in place when `k` is present, else
      appends a new entry. */
  function Put<V>(e: Entries<V>, k: string, v: V): Entries<V>
    decreases |e|
  {
    if e == [] then [(k, v)]
    else if e[0].0 == k then [(k, v)] + e[1..]
    else [e[0]] + Put(e[1..], k, v)
  }

  /** `del d[k]`, doing nothing when `k` is absent. */
  function Remove<V>(e: Entries<V>, k: string): Entries<V>
    decreases |e|
  {
    if e == [] then []
    else if e[0].0 == k then e[1..]
    else [e[0]] + Remove(e[1..], k)
  }

  /** A key is found exactly when some entry carries it, and in a dict the
      value found is the one stored with it. */
  lemma {:induction false} LookupMeaning<V>(e: Entries<V>, k: string)
    ensures Lookup(e, k).Some? <==> exists i :: 0 <= i < |e| && e[i].0 == k
    ensures forall i :: 0 <= i < |e| && e[i].0 == k && DistinctKeys(e) ==> Lookup(e, k) == Some(e[i].1)
    decreases |e|
  {
    if e != [] && e[0].0 != k {
      LookupMeaning(e[1..], k);
      assert forall i :: 1 <= i < |e| ==> e[i] == e[1..][i - 1];
      assert forall i :: 0 <= i < |e| - 1 ==> e[1..][i] == e[i + 1];
    }
  }

  /** Dropping the first entry keeps the keys distinct, and its key leaves with it. */
  lemma DistinctTail<V>(e: Entries<V>)
    requires e != [] && DistinctKeys(e)
    ensures DistinctKeys(e[1..]) && Lookup(e[1..], e[0].0).None?
  {
    LookupMeaning(e[1..], e[0].0);
  }

  /** A last entry with another key does not affect a lookup. */
  lemma {:induction false} LookupLast<V>(e: Entries<V>, k: string)
    requires e != [] && e[|e| - 1].0 != k
    ensures Lookup(e, k) == Lookup(e[..|e| - 1], k)
    decreases |e|
  {
    if |e| > 1 && e[0].0 != k {
      assert e[1..][..|e[1..]| - 1] == e[..|e| - 1][1..];
      LookupLast(e[1..], k);
    }
  }

  /** In a dict, the last entry's key finds the last entry's value. */
  lemma LookupLastKey<V>(e: Entries<V>)
    requires e != [] && DistinctKeys(e)
    ensures Lookup(e, e[|e| - 1].0) == Some(e[|e| - 1].1)
  {
    LookupMeaning(e, e[|e| - 1].0);
  }

  /** Dropping the last entry leaves a dict. */
  lemma DistinctInit<V>(e: Entries<V>)
    requires e != [] && DistinctKeys(e)
    ensures DistinctKeys(e[..|e| - 1])
  {
  }

  /** After `d[k] = v`, `k` holds `v` and every other key holds what it held. */
  lemma {:induction false} PutLookup<V>(e: Entries<V>, k: string, v: V, j: string)
    ensures Lookup(Put(e, k, v), j) == if j == k then Some(v) else Lookup(e, j)
    decreases |e|
  {
    if e != [] && e[0].0 != k {
      PutLookup(e[1..], k, v, j);
    }
  }

  /** `d[k] = v` keeps the order of the keys: a present key keeps its place,
      a new one goes last. */
  lemma {:induction false} PutShape<V>(e: Entries<V>, k: string, v: V)
    ensures Lookup(e, k).Some? ==> |Put(e, k, v)| == |e| && forall i :: 0 <= i < |e| ==> Put(e, k, v)[i].0 == e[i].0
    ensures Lookup(e, k).None? ==> Put(e, k, v) == e + [(k, v)]
    decreases |e|
  {
    if e != [] && e[0].0 != k {
      var r := Put(e, k, v);
      PutShape(e[1..], k, v);
      assert forall i :: 1 <= i < |r| ==> r[i] == Put(e[1..], k, v)[i - 1];
      assert forall i :: 1 <= i < |e| ==> e[i] == e[1..][i - 1];
    }
  }

  /** `d[k] = v` leaves a dict a dict. */
  lemma {:induction false} PutDistinct<V>(e: Entries<V>, k: string, v: V)
    requires DistinctKeys(e)
    ensures DistinctKeys(Put(e, k, v))
    decreases |e|
  {
    if e != [] && e[0].0 != k {
      var rest := Put(e[1..], k, v);
      DistinctTail(e);
      PutDistinct(e[1..], k, v);
      PutLookup(e[1..], k, v, e[0].0);
      LookupMeaning(rest, e[0].0);
      var r := [e[0]] + rest;
      assert forall i :: 1 <= i < |r| ==> r[i] == rest[i - 1];
    }
  }

  /** After `del d[k]` a dict no longer holds `k`, and every other key holds
      what it held. */
  lemma {:induction false} RemoveLookup<V>(e: Entries<V>, k: string, j: string)
    requires DistinctKeys(e)
    ensures Lookup(Remove(e, k), j) == if j == k then None else Lookup(e, j)
    decreases |e|
  {
    if e != [] {
      DistinctTail(e);
      if e[0].0 != k {
        RemoveLookup(e[1..], k, j);
      }
    }
  }

  /** Removing an absent key changes nothing. */
  lemma {:induction false} RemoveAbsent<V>(e: Entries<V>, k: string)
    requires Lookup(e, k).None?
    ensures Remove(e, k) == e
    decreases |e|
  {
    if e != [] {
      RemoveAbsent(e[1..], k);
    }
  }

  /** `del d[k]` leaves a dict a dict. */
  lemma {:induction false} RemoveDistinct<V>(e: Entries<V>, k: string)
    requires DistinctKeys(e)
    ensures DistinctKeys(Remove(e, k))
    decreases |e|
  {
    if e != [] && e[0].0 != k {
      var rest := Remove(e[1..], k);
      DistinctTail(e);
      RemoveDistinct(e[1..], k);
      RemoveLookup(e[1..], k, e[0].0);
      LookupMeaning(rest, e[0].0);
      var r := [e[0]] + rest;
      assert forall i :: 1 <= i < |r| ==> r[i] == rest[i - 1];
    }
  }

  /** A Python dict object, updated in place. */
  class Dict<V> {
    var entries: Entries<V>

    ghost predicate Valid()
      reads this
    {
      DistinctKeys(entries)
    }

    /** `{}` */
    constructor ()
      ensures Valid() && entries == []
    {
      entries := [];
    }

    /** `d.get(k)` */
    function Get(k: string): Option<V>
      reads this
    {
      Lookup(entries, k)
    }

    /** `d[k] = v` */
    method Set(k: string, v: V)
      requires Valid()
      modifies this
      ensures Valid() && entries == Put(old(entries), k, v)
    {
      PutDistinct(entries, k, v);
      entries := Put(entries, k, v);
    }

    /** `d.pop(k)`: the value under `k`, or None where Python raises KeyError
        (the dict is then left as it was). */
    method Pop(k: string) returns (r: Option<V>)
      requires Valid()
      modifies this
      ensures Valid() && r == Lookup(old(entries), k)
      ensures entries == Remove(old(entries), k)
      ensures r.None? ==> entries == old(entries)
    {
      r := Lookup(entries, k);
      RemoveDistinct(entries, k);
      if r.None? {
        RemoveAbsent(entries, k);
      }
      entries := Remove(entries, k);
    }
  }
}
