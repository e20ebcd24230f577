/**
  Small generic building blocks shared by the page and server models: an optional value,
  a success-or-error value, and the JavaScript array operations the application relies on
  (`filter`, `flatMap`, `findIndex`, spreading a `Set` built from an array, and MongoDB's
  `$addToSet` / `$pull` on arrays).
 */
module Seqs {

  /** A value that may be absent (JavaScript `undefined` / `null`). */
  datatype Option<+T> = None | Some(value: T) {
    /** The value, or `default` when absent (the `x || default` idiom). */
    function GetOr(default: T): T {
      if Some? then value else default
    }
  }

  /** Either a result or the reason it could not be produced. */
  datatype Result<+T, +E> = Ok(value: T) | Err(error: E)

  /** No element occurs twice. */
  ghost predicate NoDup<T>(s: seq<T>) {
    forall i, j :: 0 <= i < j < |s| ==> s[i] != s[j]
  }

  /** No two elements share a key. */
  ghost predicate NoDupBy<T, K>(key: T -> K, s: seq<T>) {
    forall i, j :: 0 <= i < j < |s| ==> key(s[i]) != key(s[j])
  }

  /** Keeps, in their original order, the elements satisfying `f` (`Array.prototype.filter`). */
  function Filter<T(!new)>(f: T -> bool, s: seq<T>): (r: seq<T>)
    ensures |r| <= |s|
    ensures forall x :: x in r <==> x in s && f(x)
  {
    if |s| == 0 then []
    else (if f(s[0]) then [s[0]] else []) + Filter(f, s[1..])
  }

  /** Filtering distributes over concatenation: the kept elements stay in input order. */
  lemma {:induction false} FilterAppend<T(!new)>(f: T -> bool, a: seq<T>, b: seq<T>)
    ensures Filter(f, a + b) == Filter(f, a) + Filter(f, b)
  {
    if |a| == 0 {
      assert a + b == b;
    } else {
      assert (a + b)[1..] == a[1..] + b;
      FilterAppend(f, a[1..], b);
    }
  }

  /** A filter that every element passes is the identity. */
  lemma {:induction false} FilterKeepsAll<T(!new)>(f: T -> bool, s: seq<T>)
    requires forall i :: 0 <= i < |s| ==> f(s[i])
    ensures Filter(f, s) == s
  {
    if |s| > 0 {
      FilterKeepsAll(f, s[1..]);
    }
  }

  /** A filter that every element fails leaves nothing. */
  lemma {:induction false} FilterKeepsNone<T(!new)>(f: T -> bool, s: seq<T>)
    requires forall i :: 0 <= i < |s| ==> !f(s[i])
    ensures Filter(f, s) == []
  {
    if |s| > 0 {
      FilterKeepsNone(f, s[1..]);
    }
  }

  /** Filtering a sequence whose keys are pairwise distinct keeps them pairwise distinct. */
  lemma {:induction false} FilterKeepsDistinctKeys<T(!new), K>(f: T -> bool, key: T -> K, s: seq<T>)
    requires NoDupBy(key, s)
    ensures NoDupBy(key, Filter(f, s))
  {
    if |s| > 0 {
      FilterKeepsDistinctKeys(f, key, s[1..]);
      var rest := Filter(f, s[1..]);
      forall j | 0 <= j < |rest|
        ensures key(rest[j]) != key(s[0])
      {
        var x := rest[j];
        assert x in s[1..];
        var k :| 0 <= k < |s[1..]| && s[1..][k] == x;
        assert s[k + 1] == x;
      }
    }
  }

  /**
    The distinct elements of `s` in the order of their first occurrence: what
    `[...new Set(s)]` yields, since a JavaScript `Set` iterates in insertion order.
   */
  function FirstOccurrences<T(==,!new)>(s: seq<T>): (r: seq<T>)
    ensures NoDup(r)
    ensures forall x :: x in r <==> x in s
    ensures forall i, j :: 0 <= i < j < |r| ==> FirstSeenBefore(s, r[i], r[j])
    decreases |s|
  {
    if |s| == 0 then []
    else
      var init := s[..|s| - 1];
      var last := s[|s| - 1];
      assert s == init + [last];
      var rest := FirstOccurrences(init);
      forall x, y | FirstSeenBefore(init, x, y)
        ensures FirstSeenBefore(s, x, y)
      {
        FirstSeenBeforeExtends(init, last, x, y);
      }
      if last in init then rest
      else
        forall x | x in init
          ensures FirstSeenBefore(s, x, last)
        {
          var a :| 0 <= a < |init| && init[a] == x;
          assert s[..a + 1] == init[..a + 1];
        }
        var r := rest + [last];
        assert forall i :: 0 <= i < |rest| ==> r[i] == rest[i] && rest[i] in init;
        r
  }

  /** `x` occurs in `s`, and `y` does not occur up to and including the first occurrence of `x`. */
  ghost predicate FirstSeenBefore<T>(s: seq<T>, x: T, y: T) {
    exists a :: 0 <= a < |s| && s[a] == x && y !in s[..a + 1]
  }

  /** Appending an element does not change which of two elements was seen first. */
  lemma FirstSeenBeforeExtends<T>(s: seq<T>, z: T, x: T, y: T)
    requires FirstSeenBefore(s, x, y)
    ensures FirstSeenBefore(s + [z], x, y)
  {
    var a :| 0 <= a < |s| && s[a] == x && y !in s[..a + 1];
    assert (s + [z])[..a + 1] == s[..a + 1];
    assert (s + [z])[a] == x;
  }

  /** A duplicate-free sequence is its own list of first occurrences. */
  lemma {:induction false} FirstOccurrencesOfDistinct<T(!new)>(s: seq<T>)
    requires NoDup(s)
    ensures FirstOccurrences(s) == s
    decreases |s|
  {
    if |s| > 0 {
      var init := s[..|s| - 1];
      assert NoDup(init);
      FirstOccurrencesOfDistinct(init);
      assert s[|s| - 1] !in init;
      assert s == init + [s[|s| - 1]];
    }
  }

  /** Concatenation of a sequence of sequences (`flatMap` with the identity). */
  function Flatten<T>(ss: seq<seq<T>>): (r: seq<T>)
    ensures |ss| == 0 ==> r == []
    ensures forall i, x :: 0 <= i < |ss| && x in ss[i] ==> x in r
    ensures forall x :: x in r ==> exists i :: 0 <= i < |ss| && x in ss[i]
  {
    if |ss| == 0 then []
    else
      var rest := Flatten(ss[1..]);
      assert forall i, x :: 1 <= i < |ss| && x in ss[i] ==> x in ss[1..][i - 1];
      ss[0] + rest
  }

  /** Flattening a concatenation flattens each part and concatenates the results, in order. */
  lemma {:induction false} FlattenAppend<T>(a: seq<seq<T>>, b: seq<seq<T>>)
    ensures Flatten(a + b) == Flatten(a) + Flatten(b)
  {
    if |a| == 0 {
      assert a + b == b;
    } else {
      assert (a + b)[1..] == a[1..] + b;
      FlattenAppend(a[1..], b);
    }
  }

  /** Index of the first element satisfying `f` (`Array.prototype.findIndex`, or MongoDB's `findOne`). */
  function FindFirst<T>(f: T -> bool, s: seq<T>): (r: Option<nat>)
    ensures r.Some? ==> r.value < |s| && f(s[r.value])
    ensures r.Some? ==> forall j :: 0 <= j < r.value ==> !f(s[j])
    ensures r.None? <==> forall j :: 0 <= j < |s| ==> !f(s[j])
  {
    if |s| == 0 then None
    else if f(s[0]) then Some(0)
    else match FindFirst(f, s[1..])
      case None => None
      case Some(k) => Some(k + 1)
  }

  /** The first index satisfying `f` is the one before which nothing does. */
  lemma FindFirstIs<T>(f: T -> bool, s: seq<T>, k: nat)
    requires k < |s| && f(s[k])
    requires forall j :: 0 <= j < k ==> !f(s[j])
    ensures FindFirst(f, s) == Some(k)
  {
  }

  /** MongoDB's `$addToSet` on an array: appends `x` unless it is already present. */
  function AddToSet<T(==,!new)>(s: seq<T>, x: T): (r: seq<T>)
    ensures x in r
    ensures forall y :: y in r <==> y in s || y == x
    ensures x in s ==> r == s
    ensures x !in s ==> |r| == |s| + 1
    ensures NoDup(s) ==> NoDup(r)
  {
    if x in s then s else s + [x]
  }

  /** MongoDB's `$pull` of one value from an array: removes every occurrence of `x`. */
  function Pull<T(==,!new)>(s: seq<T>, x: T): (r: seq<T>)
    ensures x !in r
    ensures forall y :: y != x ==> (y in r <==> y in s)
  {
    Filter(y => y != x, s)
  }

  /** Sum of a sequence of integers, folded from the right end. */
  function Sum(s: seq<int>): int {
    if |s| == 0 then 0 else Sum(s[..|s| - 1]) + s[|s| - 1]
  }

  /** The sum of a concatenation is the sum of the parts. */
  lemma {:induction false} SumAppend(a: seq<int>, b: seq<int>)
    ensures Sum(a + b) == Sum(a) + Sum(b)
    decreases |b|
  {
    if |b| == 0 {
      assert a + b == a;
    } else {
      assert (a + b)[..|a + b| - 1] == a + b[..|b| - 1];
      SumAppend(a, b[..|b| - 1]);
    }
  }
}
