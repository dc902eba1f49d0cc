/**
 * The lookup both backend catalogs use: the first record whose lower-cased name
 * contains the lower-cased query, or an error object naming what was not found.
 */
module Catalog {
  import opened Wrappers
  import opened Text

  /**
   * Python's `query.lower() in name.lower()`, with lower-casing as `Text.Lower` models it
   * (ASCII letters, U+212A and U+0130), which covers the catalogs' names.
   */
  predicate NameMatches(name: string, query: string) {
    Contains(Lower(name), Lower(query))
  }

  /** Index of the first record at or after `from` whose name matches the query. */
  function FirstMatch<T>(items: seq<T>, name: T -> string, query: string, from: nat): (r: Option<nat>)
    requires from <= |items|
    ensures r.Some? ==> from <= r.value < |items| && NameMatches(name(items[r.value]), query)
    ensures r.None? ==> forall i :: from <= i < |items| ==> !NameMatches(name(items[i]), query)
    ensures r.Some? ==> forall i :: from <= i < r.value ==> !NameMatches(name(items[i]), query)
    decreases |items| - from
  {
    if from == |items| then None
    else if NameMatches(name(items[from]), query) then Some(from)
    else FirstMatch(items, name, query, from + 1)
  }

  /** The handler's answer: a record, or `{"error": message}`. */
  datatype Lookup<T> = Found(record: T) | NotFound(error: string)

  /** The loop over the catalog in order, returning at the first match. */
  function Find<T>(items: seq<T>, name: T -> string, query: string, error: string): (r: Lookup<T>)
    ensures r.NotFound? ==> r.error == error
  {
    match FirstMatch(items, name, query, 0)
    case Some(i) => Found(items[i])
    case None => NotFound(error)
  }

  /** A lookup finds record `i` exactly when `i` matches and no earlier record does. */
  lemma {:induction false} FindFirst<T>(items: seq<T>, name: T -> string, query: string, error: string, i: nat)
    requires i < |items| && NameMatches(name(items[i]), query)
    requires forall j :: 0 <= j < i ==> !NameMatches(name(items[j]), query)
    ensures Find(items, name, query, error) == Found(items[i])
  {
    var r := FirstMatch(items, name, query, 0);
    assert r.Some?;
    assert r.value == i;
  }

  /** A found record matches the query, and a miss means no record matches. */
  lemma FindMeaning<T>(items: seq<T>, name: T -> string, query: string, error: string)
    ensures Find(items, name, query, error).NotFound? <==>
      forall i :: 0 <= i < |items| ==> !NameMatches(name(items[i]), query)
    ensures Find(items, name, query, error).Found? ==>
      (exists i :: 0 <= i < |items| && items[i] == Find(items, name, query, error).record
        && NameMatches(name(items[i]), query))
  {
    var r := FirstMatch(items, name, query, 0);
    if r.Some? {
      assert items[r.value] == Find(items, name, query, error).record;
    }
  }

  /** A found record is one of the catalog's and matches the query. */
  lemma FindFound<T>(items: seq<T>, name: T -> string, query: string, error: string)
    ensures Find(items, name, query, error).Found? ==>
      Find(items, name, query, error).record in items && NameMatches(name(Find(items, name, query, error).record), query)
  {
    FindMeaning(items, name, query, error);
  }

  /** Every name contains the empty query, so it finds the first record. */
  lemma FindEmptyQuery<T>(items: seq<T>, name: T -> string, error: string)
    requires |items| > 0
    ensures Find(items, name, "", error) == Found(items[0])
  {
    assert Lower("") == "";
    ContainsEmpty(Lower(name(items[0])));
    FindFirst(items, name, "", error, 0);
  }
}
