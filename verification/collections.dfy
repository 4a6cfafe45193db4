/**
 * Sequence queries the database layer performs for the server: `find` with a
 * filter, `findOne` (first match in insertion order), `sort` newest first and
 * `limit`. Each one is stated against a reference property (filtered
 * multiplicities, sortedness, permutation) rather than its recursion.
 */
module Collections {
  import opened Types

  /** Keeps the elements satisfying `p`, in their original order. */
  function Filter<T(!new)>(s: seq<T>, p: T -> bool): (r: seq<T>)
    ensures |r| <= |s|
    ensures forall i :: 0 <= i < |r| ==> p(r[i])
  {
    if s == [] then []
    else if p(s[0]) then [s[0]] + Filter(s[1..], p)
    else Filter(s[1..], p)
  }

  /** Each element occurs in the result exactly as often as in `s` if it passes, and never otherwise. */
  lemma {:induction false} FilterCounts<T(!new)>(s: seq<T>, p: T -> bool)
    ensures forall x :: multiset(Filter(s, p))[x] == if p(x) then multiset(s)[x] else 0
  {
    if s != [] {
      FilterCounts(s[1..], p);
      assert s == [s[0]] + s[1..];
    }
  }

  lemma FilterMembership<T(!new)>(s: seq<T>, p: T -> bool)
    ensures forall x :: x in Filter(s, p) <==> x in s && p(x)
  {
    var r := Filter(s, p);
    FilterCounts(s, p);
    forall x
      ensures x in r <==> x in s && p(x)
    {
      assert x in r <==> x in multiset(r);
      assert x in s <==> x in multiset(s);
    }
  }

  /** Filtering distributes over concatenation: relative order is kept. */
  lemma {:induction false} FilterConcat<T(!new)>(a: seq<T>, b: seq<T>, p: T -> bool)
    ensures Filter(a + b, p) == Filter(a, p) + Filter(b, p)
  {
    if a == [] {
      assert a + b == b;
    } else {
      assert (a + b)[0] == a[0];
      assert (a + b)[1..] == a[1..] + b;
      FilterConcat(a[1..], b, p);
    }
  }

  /** Filtering removes nothing when every element passes. */
  lemma {:induction false} FilterAll<T(!new)>(s: seq<T>, p: T -> bool)
    requires forall i :: 0 <= i < |s| ==> p(s[i])
    ensures Filter(s, p) == s
  {
    if s != [] {
      FilterAll(s[1..], p);
    }
  }

  /** Whatever holds of every element still holds of every element kept. */
  lemma {:induction false} FilterKeeps<T(!new)>(s: seq<T>, p: T -> bool, q: T -> bool)
    requires forall i :: 0 <= i < |s| ==> q(s[i])
    ensures forall i :: 0 <= i < |Filter(s, p)| ==> q(Filter(s, p)[i])
  {
    if s != [] {
      FilterKeeps(s[1..], p, q);
    }
  }

  /** Filtering out exactly one position cuts that position out, the rest in order. */
  lemma {:induction false} FilterCutsOne<T(!new)>(s: seq<T>, k: nat, p: T -> bool)
    requires k < |s| && !p(s[k])
    requires forall j :: 0 <= j < |s| && j != k ==> p(s[j])
    ensures Filter(s, p) == s[..k] + s[k + 1..]
  {
    var t := s[1..];
    if k == 0 {
      assert forall j :: 0 <= j < |t| ==> t[j] == s[j + 1];
      FilterAll(t, p);
    } else {
      assert p(s[0]);
      assert forall j :: 0 <= j < |t| && j != k - 1 ==> t[j] == s[j + 1];
      FilterCutsOne(t, k - 1, p);
      assert Filter(s, p) == [s[0]] + (t[..k - 1] + t[k..]);
      assert [s[0]] + t[..k - 1] == s[..k];
      assert t[k..] == s[k + 1..];
    }
  }

  /** `s.map(f)`. */
  function Map<T, U>(s: seq<T>, f: T -> U): (r: seq<U>)
    ensures |r| == |s|
    ensures forall i :: 0 <= i < |r| ==> r[i] == f(s[i])
  {
    seq(|s|, i requires 0 <= i < |s| => f(s[i]))
  }

  lemma MapConcat<T, U>(a: seq<T>, b: seq<T>, f: T -> U)
    ensures Map(a + b, f) == Map(a, f) + Map(b, f)
  {
    var l, r := Map(a + b, f), Map(a, f) + Map(b, f);
    forall i | 0 <= i < |l|
      ensures l[i] == r[i]
    {
      if i < |a| {
        assert (a + b)[i] == a[i];
      } else {
        assert (a + b)[i] == b[i - |a|];
      }
    }
  }

  /** Index of the first element satisfying `p`, as MongoDB's `findOne` in natural order. */
  function FindFirst<T>(s: seq<T>, p: T -> bool): (r: Option<nat>)
    ensures r.Some? ==> r.value < |s| && p(s[r.value])
    ensures r.Some? ==> forall j :: 0 <= j < r.value ==> !p(s[j])
    ensures r.None? ==> forall j :: 0 <= j < |s| ==> !p(s[j])
  {
    if s == [] then None
    else if p(s[0]) then Some(0)
    else
      match FindFirst(s[1..], p)
      case None => None
      case Some(k) => Some(k + 1)
  }

  /** An element appended after a sequence with no match is the first match. */
  lemma FindFirstAppended<T>(s: seq<T>, x: T, p: T -> bool)
    requires forall i :: 0 <= i < |s| ==> !p(s[i])
    requires p(x)
    ensures FindFirst(s + [x], p) == Some(|s|)
  {
    assert (s + [x])[|s|] == x;
    assert forall i :: 0 <= i < |s| ==> (s + [x])[i] == s[i];
  }

  /** `s` is ordered by `key`, largest (newest) first. */
  ghost predicate SortedDesc<T>(s: seq<T>, key: T -> int) {
    forall i, j :: 0 <= i < j < |s| ==> key(s[i]) >= key(s[j])
  }

  function InsertDesc<T>(x: T, s: seq<T>, key: T -> int): (r: seq<T>)
    requires SortedDesc(s, key)
    ensures |r| == |s| + 1
    ensures r[0] == x || (|s| > 0 && r[0] == s[0])
    ensures SortedDesc(r, key)
    ensures multiset(r) == multiset(s) + multiset{x}
  {
    if s == [] || key(x) >= key(s[0]) then [x] + s
    else
      var rest := InsertDesc(x, s[1..], key);
      assert s == [s[0]] + s[1..];
      assert key(s[0]) >= key(rest[0]);
      [s[0]] + rest
  }

  /** Orders `s` newest first (`.sort({ field: -1 })`); elements with equal keys keep their order. */
  function SortDesc<T>(s: seq<T>, key: T -> int): (r: seq<T>)
    ensures |r| == |s|
    ensures SortedDesc(r, key)
    ensures multiset(r) == multiset(s)
  {
    if s == [] then []
    else
      assert s == [s[0]] + s[1..];
      InsertDesc(s[0], SortDesc(s[1..], key), key)
  }

  /** The elements of `s` satisfying `p`, newest first: `find(filter).sort({ key: -1 })`. */
  function Select<T(!new)>(s: seq<T>, p: T -> bool, key: T -> int): (r: seq<T>)
    ensures SortedDesc(r, key)
    ensures forall i :: 0 <= i < |r| ==> p(r[i])
    ensures forall x :: multiset(r)[x] == if p(x) then multiset(s)[x] else 0
  {
    FilterCounts(s, p);
    var r := SortDesc(Filter(s, p), key);
    assert forall i :: 0 <= i < |r| ==> r[i] in multiset(r);
    r
  }

  lemma SelectMembership<T(!new)>(s: seq<T>, p: T -> bool, key: T -> int)
    ensures forall x :: x in Select(s, p, key) <==> x in s && p(x)
  {
    var r := Select(s, p, key);
    forall x
      ensures x in r <==> x in s && p(x)
    {
      assert x in r <==> x in multiset(r);
      assert x in s <==> x in multiset(s);
    }
  }

  /** `Select` returns each selected element at most as often as `s` holds it. */
  lemma SelectSubMultiset<T(!new)>(s: seq<T>, p: T -> bool, key: T -> int)
    ensures multiset(Select(s, p, key)) <= multiset(s)
  {
    var r := Select(s, p, key);
    forall x
      ensures multiset(r)[x] <= multiset(s)[x]
    {
    }
  }

  /** The first `n` elements (`.limit(n)`). */
  function Take<T>(s: seq<T>, n: nat): (r: seq<T>)
    ensures |r| == if |s| <= n then |s| else n
    ensures forall i :: 0 <= i < |r| ==> r[i] == s[i]
  {
    if |s| <= n then s else s[..n]
  }

  lemma TakeSubMultiset<T>(s: seq<T>, n: nat)
    ensures multiset(Take(s, n)) <= multiset(s)
  {
    var r := Take(s, n);
    assert s == r + s[|r|..];
  }

  /**
   * Limiting a newest-first sequence keeps the newest elements: anything left
   * out is no newer than anything kept.
   */
  lemma {:induction false} TakeKeepsNewest<T>(s: seq<T>, n: nat, key: T -> int)
    requires SortedDesc(s, key)
    ensures forall x, y :: x in Take(s, n) && y in s && y !in Take(s, n) ==> key(y) <= key(x)
  {
    var r := Take(s, n);
    forall x, y | x in r && y in s && y !in r
      ensures key(y) <= key(x)
    {
      var i :| 0 <= i < |r| && r[i] == x;
      var j :| 0 <= j < |s| && s[j] == y;
      assert j >= |r|;
      assert s[i] == x;
    }
  }
}
