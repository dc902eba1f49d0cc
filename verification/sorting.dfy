/**
 * Stable sorting by a total preorder, as `Array.prototype.sort` performs it with a
 * consistent comparator (the sort has been stable since ES2019). `le(a, b)` says that
 * `a` may come before `b`; elements that are equivalent keep their input order.
 */
module Sorting {
  import opened Wrappers

  ghost predicate TotalPreorder<T(!new)>(le: (T, T) -> bool) {
    && (forall a, b :: le(a, b) || le(b, a))
    && (forall a, b, c :: le(a, b) && le(b, c) ==> le(a, c))
  }

  ghost predicate Sorted<T>(xs: seq<T>, le: (T, T) -> bool) {
    forall i, j :: 0 <= i < j < |xs| ==> le(xs[i], xs[j])
  }

  /**
   * Inserts `x` in front of the first element it may precede. Called with the elements
   * of the input from last to first, so an element goes before the equivalent ones that
   * followed it in the input.
   */
  function Insert<T>(x: T, ys: seq<T>, le: (T, T) -> bool): (r: seq<T>)
    ensures |r| == |ys| + 1
    ensures multiset(r) == multiset(ys) + multiset{x}
  {
    if ys == [] || le(x, ys[0]) then [x] + ys
    else
      assert ys == [ys[0]] + ys[1..];
      [ys[0]] + Insert(x, ys[1..], le)
  }

  lemma {:induction false} InsertSorted<T(!new)>(x: T, ys: seq<T>, le: (T, T) -> bool)
    requires TotalPreorder(le)
    requires Sorted(ys, le)
    ensures Sorted(Insert(x, ys, le), le)
  {
    if ys == [] || le(x, ys[0]) {
      var r := [x] + ys;
      forall i, j | 0 <= i < j < |r|
        ensures le(r[i], r[j])
      {
        if i == 0 && j > 1 {
          assert le(ys[0], ys[j - 1]);
        }
      }
    } else {
      InsertSorted(x, ys[1..], le);
      var tail := Insert(x, ys[1..], le);
      var r := [ys[0]] + tail;
      assert le(ys[0], x);
      forall j | 0 <= j < |tail|
        ensures le(ys[0], tail[j])
      {
        assert tail[j] in multiset(tail);
        assert tail[j] in multiset(ys[1..]) + multiset{x};
        if tail[j] != x {
          assert tail[j] in multiset(ys[1..]);
          var k :| 0 <= k < |ys[1..]| && ys[1..][k] == tail[j];
          assert ys[k + 1] == tail[j];
        }
      }
      forall i, j | 0 <= i < j < |r|
        ensures le(r[i], r[j])
      {
        if i == 0 {
          assert r[j] == tail[j - 1];
        } else {
          assert r[i] == tail[i - 1] && r[j] == tail[j - 1];
        }
      }
    }
  }

  /** Stable insertion sort. */
  function Sort<T>(xs: seq<T>, le: (T, T) -> bool): (r: seq<T>)
    ensures |r| == |xs|
    ensures multiset(r) == multiset(xs)
  {
    if xs == [] then []
    else
      assert xs == [xs[0]] + xs[1..];
      Insert(xs[0], Sort(xs[1..], le), le)
  }

  /** Under a total preorder the sort's output is ordered. */
  lemma {:induction false} SortSorted<T(!new)>(xs: seq<T>, le: (T, T) -> bool)
    requires TotalPreorder(le)
    ensures Sorted(Sort(xs, le), le)
  {
    if xs != [] {
      SortSorted(xs[1..], le);
      InsertSorted(xs[0], Sort(xs[1..], le), le);
    }
  }

  /** Index of the first element of `xs` that satisfies `p`; `|xs|` when there is none. */
  function FirstIndex<T>(xs: seq<T>, p: T -> bool): (i: nat)
    ensures i <= |xs|
    ensures i < |xs| ==> p(xs[i])
    ensures forall j :: 0 <= j < i ==> !p(xs[j])
  {
    if xs == [] then 0
    else if p(xs[0]) then 0
    else 1 + FirstIndex(xs[1..], p)
  }

  /** The first element of `xs` that satisfies `p`. */
  function FindFirst<T>(xs: seq<T>, p: T -> bool): (r: Option<T>)
    ensures r.None? <==> forall i :: 0 <= i < |xs| ==> !p(xs[i])
    ensures r.Some? ==> exists i :: 0 <= i < |xs| && xs[i] == r.value && p(r.value)
                                    && forall j :: 0 <= j < i ==> !p(xs[j])
  {
    var i := FirstIndex(xs, p);
    if i < |xs| then Some(xs[i]) else None
  }

  /**
   * `x` is what a search for `p` finds first once `xs` is sorted: it satisfies `p`,
   * may precede every element that satisfies `p`, and every element before it in the
   * input that satisfies `p` strictly precedes it.
   */
  ghost predicate FirstBest<T>(xs: seq<T>, p: T -> bool, le: (T, T) -> bool, x: T) {
    exists i :: 0 <= i < |xs| && xs[i] == x && p(x)
      && (forall j :: 0 <= j < |xs| && p(xs[j]) ==> le(x, xs[j]))
      && (forall j :: 0 <= j < i && p(xs[j]) ==> !le(xs[j], x))
  }

  lemma {:induction false} FindFirstInsert<T(!new)>(x: T, ys: seq<T>, p: T -> bool, le: (T, T) -> bool)
    requires TotalPreorder(le)
    requires Sorted(ys, le)
    ensures !p(x) ==> FindFirst(Insert(x, ys, le), p) == FindFirst(ys, p)
    ensures p(x) ==> (FindFirst(Insert(x, ys, le), p) ==
      (var f := FindFirst(ys, p); if f.Some? && !le(x, f.value) then f else Some(x)))
  {
    if ys == [] || le(x, ys[0]) {
      FindFirstCons(x, ys, p);
      if p(x) {
        var f := FindFirst(ys, p);
        if f.Some? {
          var i :| 0 <= i < |ys| && ys[i] == f.value && p(f.value);
          if i > 0 {
            assert le(ys[0], ys[i]);
          }
          assert le(x, f.value);
        }
      }
    } else {
      assert Sorted(ys[1..], le);
      FindFirstInsert(x, ys[1..], p, le);
      FindFirstCons(ys[0], Insert(x, ys[1..], le), p);
      assert ys == [ys[0]] + ys[1..];
      FindFirstCons(ys[0], ys[1..], p);
    }
  }

  /** A search looks at the first element before the rest. */
  lemma FindFirstCons<T>(y: T, zs: seq<T>, p: T -> bool)
    ensures FindFirst([y] + zs, p) == if p(y) then Some(y) else FindFirst(zs, p)
  {
    assert ([y] + zs)[1..] == zs;
  }

  /** Sorting neither adds nor removes an element satisfying `p`. */
  lemma {:induction false} SortNoneIff<T>(xs: seq<T>, p: T -> bool, le: (T, T) -> bool)
    ensures (exists i :: 0 <= i < |xs| && p(xs[i])) <==> (exists i :: 0 <= i < |Sort(xs, le)| && p(Sort(xs, le)[i]))
  {
    var s := Sort(xs, le);
    forall i | 0 <= i < |xs| && p(xs[i]) ensures exists k :: 0 <= k < |s| && p(s[k]) {
      assert xs[i] in multiset(xs);
      assert xs[i] in s;
      var k :| 0 <= k < |s| && s[k] == xs[i];
    }
    forall i | 0 <= i < |s| && p(s[i]) ensures exists k :: 0 <= k < |xs| && p(xs[k]) {
      assert s[i] in multiset(s);
      assert s[i] in xs;
      var k :| 0 <= k < |xs| && xs[k] == s[i];
    }
    assert s == Sort(xs, le);
  }

  /** A best element of the tail stays best when a head that does not beat it is added. */
  lemma FirstBestCons<T(!new)>(x: T, rest: seq<T>, p: T -> bool, le: (T, T) -> bool, y: T)
    requires TotalPreorder(le)
    requires FirstBest(rest, p, le, y)
    requires p(x) ==> !le(x, y)
    ensures FirstBest([x] + rest, p, le, y)
  {
    var xs := [x] + rest;
    var i :| 0 <= i < |rest| && rest[i] == y && p(y)
      && (forall j :: 0 <= j < |rest| && p(rest[j]) ==> le(y, rest[j]))
      && (forall j :: 0 <= j < i && p(rest[j]) ==> !le(rest[j], y));
    assert xs[i + 1] == y;
    forall j | 0 <= j < |xs| && p(xs[j]) ensures le(y, xs[j]) {
      if j > 0 { assert xs[j] == rest[j - 1]; }
    }
    forall j | 0 <= j < i + 1 && p(xs[j]) ensures !le(xs[j], y) {
      if j > 0 { assert xs[j] == rest[j - 1]; }
    }
  }

  /** A head satisfying `p` that may precede the tail's best element is the best. */
  lemma FirstBestHead<T(!new)>(x: T, rest: seq<T>, p: T -> bool, le: (T, T) -> bool, g: Option<T>)
    requires TotalPreorder(le)
    requires p(x)
    requires g.None? ==> forall i :: 0 <= i < |rest| ==> !p(rest[i])
    requires g.Some? ==> FirstBest(rest, p, le, g.value) && le(x, g.value)
    ensures FirstBest([x] + rest, p, le, x)
  {
    var xs := [x] + rest;
    assert le(x, x);
    forall j | 0 <= j < |xs| && p(xs[j]) ensures le(x, xs[j]) {
      if j > 0 {
        assert xs[j] == rest[j - 1];
        var y := g.value;
        var i :| 0 <= i < |rest| && rest[i] == y && p(y)
          && (forall k :: 0 <= k < |rest| && p(rest[k]) ==> le(y, rest[k]));
        assert le(y, xs[j]);
      }
    }
    assert xs[0] == x;
  }

  /** Searching the sorted sequence finds the best match, the earliest among equals. */
  lemma {:induction false} FindFirstSorted<T(!new)>(xs: seq<T>, p: T -> bool, le: (T, T) -> bool)
    requires TotalPreorder(le)
    ensures FindFirst(Sort(xs, le), p).None? <==> forall i :: 0 <= i < |xs| ==> !p(xs[i])
    ensures FindFirst(Sort(xs, le), p).Some? ==> FirstBest(xs, p, le, FindFirst(Sort(xs, le), p).value)
  {
    SortNoneIff(xs, p, le);
    if xs != [] {
      var x := xs[0];
      var rest := xs[1..];
      assert xs == [x] + rest;
      FindFirstSorted(rest, p, le);
      SortSorted(rest, le);
      FindFirstInsert(x, Sort(rest, le), p, le);
      var f := FindFirst(Sort(xs, le), p);
      var g := FindFirst(Sort(rest, le), p);
      if !p(x) || (g.Some? && !le(x, g.value)) {
        if g.Some? {
          FirstBestCons(x, rest, p, le, g.value);
        }
      } else {
        FirstBestHead(x, rest, p, le, g);
      }
    }
  }

  /**
   * `FindFirstSorted` for an order by descending `key`: the element found, at index `i`
   * of the input, is one of the highest key among those satisfying `p`, and each one
   * before it in the input that satisfies `p` has a strictly lower key.
   */
  lemma FindFirstByKey<T(!new)>(xs: seq<T>, p: T -> bool, le: (T, T) -> bool, key: T -> int) returns (i: nat)
    requires forall a, b :: le(a, b) <==> key(a) >= key(b)
    ensures FindFirst(Sort(xs, le), p).None? <==> forall i :: 0 <= i < |xs| ==> !p(xs[i])
    ensures FindFirst(Sort(xs, le), p).Some? ==>
      && i < |xs| && xs[i] == FindFirst(Sort(xs, le), p).value && p(xs[i])
      && (forall j :: 0 <= j < |xs| && p(xs[j]) ==> key(xs[j]) <= key(xs[i]))
      && (forall j :: 0 <= j < i && p(xs[j]) ==> key(xs[j]) < key(xs[i]))
  {
    assert TotalPreorder(le);
    FindFirstSorted(xs, p, le);
    var r := FindFirst(Sort(xs, le), p);
    i := 0;
    if r.Some? {
      i := FirstBestByKey(xs, p, le, key, r.value);
    }
  }

  /** `FirstBest` for an order by descending `key`, stated on the keys. */
  lemma FirstBestByKey<T>(xs: seq<T>, p: T -> bool, le: (T, T) -> bool, key: T -> int, x: T) returns (i: nat)
    requires forall a, b :: le(a, b) <==> key(a) >= key(b)
    requires FirstBest(xs, p, le, x)
    ensures i < |xs| && xs[i] == x && p(x)
    ensures forall j :: 0 <= j < |xs| && p(xs[j]) ==> key(xs[j]) <= key(xs[i])
    ensures forall j :: 0 <= j < i && p(xs[j]) ==> key(xs[j]) < key(xs[i])
  {
    i :| 0 <= i < |xs| && xs[i] == x && p(x)
      && (forall j :: 0 <= j < |xs| && p(xs[j]) ==> le(x, xs[j]))
      && (forall j :: 0 <= j < i && p(xs[j]) ==> !le(xs[j], x));
  }
}