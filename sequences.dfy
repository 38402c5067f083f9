/** The `List<T>` and LINQ operations the store and the controller apply to
    sequences: `Skip`, `Take`, `Distinct`, `IndexOf` and `Remove`. */
module Sequences {

  /** No element occurs twice. */
  predicate Unique<T(==)>(s: seq<T>) {
    forall i, j :: 0 <= i < j < |s| ==> s[i] != s[j]
  }

  /** `s.Skip(n)`: everything after the first `n` elements; a negative count
      skips nothing. */
  function Skip<T>(s: seq<T>, n: int): (r: seq<T>)
    ensures |r| == if n <= 0 then |s| else if n >= |s| then 0 else |s| - n
    ensures r == s[|s| - |r|..]
  {
    if n <= 0 then s else if n >= |s| then [] else s[n..]
  }

  /** `s.Take(n)`: the first `n` elements, all of them if there are fewer; a
      count of zero or less takes none. */
  function Take<T>(s: seq<T>, n: int): (r: seq<T>)
    ensures |r| == if n <= 0 then 0 else if n >= |s| then |s| else n
    ensures r == s[..|r|]
  {
    if n <= 0 then [] else if n >= |s| then s else s[..n]
  }

  /** Skipping then taking is a slice: `a` elements dropped, at most `b` kept. */
  lemma SkipTakeSlice<T>(s: seq<T>, a: nat, b: nat)
    ensures var lo := if a < |s| then a else |s|;
      var hi := if a + b < |s| then a + b else |s|;
      Take(Skip(s, a), b) == s[lo..hi]
  {
  }

  /** The same for any counts: a negative skip drops nothing and a count of
      zero or less keeps nothing. */
  lemma SkipTakeClamped<T>(s: seq<T>, count: int, skip: int)
    ensures var lo := if skip <= 0 then 0 else if skip < |s| then skip else |s|;
      var hi := if count <= 0 then lo else if lo + count < |s| then lo + count else |s|;
      Take(Skip(s, skip), count) == s[lo..hi]
  {
  }

  /** `list.IndexOf(x)`: the first index holding `x`, or `|s|` when none does. */
  function FirstIndex<T(==)>(s: seq<T>, x: T): (k: nat)
    ensures k <= |s|
    ensures k < |s| ==> s[k] == x
    ensures forall i :: 0 <= i < k ==> s[i] != x
    ensures k == |s| <==> x !in s
  {
    if s == [] then 0 else if s[0] == x then 0 else 1 + FirstIndex(s[1..], x)
  }

  /** `FirstOrDefault(p)`: the first index whose element satisfies `p`, or
      `|s|` when none does. */
  function FirstWhere<T>(s: seq<T>, p: T -> bool): (k: nat)
    ensures k <= |s|
    ensures k < |s| ==> p(s[k])
    ensures forall i :: 0 <= i < k ==> !p(s[i])
  {
    if s == [] then 0 else if p(s[0]) then 0 else 1 + FirstWhere(s[1..], p)
  }

  /** `list.Remove(x)`: the first occurrence of `x` taken out, the rest kept in
      order; nothing changes when `x` is absent. */
  function RemoveFirst<T(==)>(s: seq<T>, x: T): (r: seq<T>)
    ensures x in s ==> |r| == |s| - 1
    ensures x !in s ==> r == s
    ensures multiset(r) == multiset(s) - multiset{x}
  {
    var k := FirstIndex(s, x);
    if k == |s| then s
    else
      assert s == s[..k] + [x] + s[k + 1..];
      s[..k] + s[k + 1..]
  }

  /** Removing the element at `k` shifts the later ones down by one. */
  lemma RemovedAt<T>(s: seq<T>, x: T)
    requires x in s
    ensures var k := FirstIndex(s, x); var r := RemoveFirst(s, x);
      |r| == |s| - 1
      && (forall i :: 0 <= i < k ==> r[i] == s[i])
      && (forall i :: k <= i < |r| ==> r[i] == s[i + 1])
  {
    var k := FirstIndex(s, x);
    CutAt(s, k);
  }

  /** Cutting out the element at `k`. */
  lemma CutAt<T>(s: seq<T>, k: nat)
    requires k < |s|
    ensures var r := s[..k] + s[k + 1..];
      |r| == |s| - 1
      && (forall i :: 0 <= i < k ==> r[i] == s[i])
      && (forall i :: k <= i < |r| ==> r[i] == s[i + 1])
  {
  }

  /** A list without repeats loses every occurrence of an element it removes,
      keeps every other element, and still has no repeats. */
  lemma RemoveFromDistinct<T>(s: seq<T>, x: T)
    requires forall i, j :: 0 <= i < j < |s| ==> s[i] != s[j]
    ensures x !in RemoveFirst(s, x)
    ensures forall y :: y in s && y != x ==> y in RemoveFirst(s, x)
    ensures forall i, j :: 0 <= i < j < |RemoveFirst(s, x)| ==> RemoveFirst(s, x)[i] != RemoveFirst(s, x)[j]
  {
    if x in s {
      RemovedAt(s, x);
      ShiftedDistinct(s, RemoveFirst(s, x), FirstIndex(s, x));
    }
  }

  /** `r` is `s` with the element at `k` taken out. */
  lemma ShiftedDistinct<T>(s: seq<T>, r: seq<T>, k: nat)
    requires forall i, j :: 0 <= i < j < |s| ==> s[i] != s[j]
    requires k < |s| && |r| == |s| - 1
    requires forall i :: 0 <= i < k ==> r[i] == s[i]
    requires forall i :: k <= i < |r| ==> r[i] == s[i + 1]
    ensures s[k] !in r
    ensures forall y :: y in s && y != s[k] ==> y in r
    ensures forall i, j :: 0 <= i < j < |r| ==> r[i] != r[j]
  {
    forall i, j | 0 <= i < j < |r| ensures r[i] != r[j] {
      var i' := if i < k then i else i + 1;
      var j' := if j < k then j else j + 1;
      assert r[i] == s[i'] && r[j] == s[j'];
    }
    forall i | 0 <= i < |r| ensures r[i] != s[k] {
      var i' := if i < k then i else i + 1;
      assert r[i] == s[i'];
    }
    forall y | y in s && y != s[k] ensures y in r {
      var m :| 0 <= m < |s| && s[m] == y;
      if m < k { assert r[m] == y; } else { assert r[m - 1] == y; }
    }
  }

  /** `s.Distinct()`: the first occurrence of each element, in order. */
  function Distinct<T(==,!new)>(s: seq<T>): (r: seq<T>)
    ensures forall i, j :: 0 <= i < j < |r| ==> r[i] != r[j]
    ensures forall x :: x in r <==> x in s
    ensures |r| <= |s|
  {
    if s == [] then []
    else
      var d := Distinct(s[..|s| - 1]);
      assert s == s[..|s| - 1] + [s[|s| - 1]];
      if s[|s| - 1] in d then d else d + [s[|s| - 1]]
  }

  /** Without repeats, `Distinct` changes nothing. */
  lemma {:induction false} DistinctOfDistinct<T(!new)>(s: seq<T>)
    requires forall i, j :: 0 <= i < j < |s| ==> s[i] != s[j]
    ensures Distinct(s) == s
  {
    if s != [] {
      var p := s[..|s| - 1];
      DistinctOfDistinct(p);
      assert s[|s| - 1] !in p;
      assert p + [s[|s| - 1]] == s;
    }
  }
}
