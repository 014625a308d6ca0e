/** Sequence helpers that mirror the Python list operations the solver uses:
    `list.remove` (drop the first equal element), `list.index`, and the
    "append unless already present" idiom that deduplicates a list while
    keeping the order of first occurrences. */
module Seqs {

  /** No element occurs twice. */
  predicate NoDup<T(==)>(s: seq<T>) {
    forall i, j :: 0 <= i < j < |s| ==> s[i] != s[j]
  }

  /** Python's `list.index(x)`: the position of the first occurrence of `x`. */
  function IndexOf<T(==)>(s: seq<T>, x: T): (r: nat)
    requires x in s
    ensures r < |s| && s[r] == x
    ensures x !in s[..r]
  {
    if s[0] == x then 0 else 1 + IndexOf(s[1..], x)
  }

  /** Nothing before the first occurrence equals `x`. */
  lemma IndexOfBefore<T>(s: seq<T>, x: T)
    requires x in s
    ensures forall i :: 0 <= i < IndexOf(s, x) ==> s[i] != x
  {
    var r := IndexOf(s, x);
    forall i | 0 <= i < r ensures s[i] != x {
      assert s[i] == s[..r][i];
    }
  }

  /** Python's `list.remove(x)`: drops the first element equal to `x`
      (the caller guarantees it is there; Python raises ValueError otherwise). */
  function RemoveFirst<T(==)>(s: seq<T>, x: T): (r: seq<T>)
    requires x in s
    ensures |r| == |s| - 1
    ensures multiset(r) == multiset(s) - multiset{x}
  {
    var i := IndexOf(s, x);
    assert s == s[..i] + [x] + s[i + 1..];
    s[..i] + s[i + 1..]
  }

  /** `remove(x)` keeps every other element and adds nothing. */
  lemma RemoveFirstMembers<T>(s: seq<T>, x: T)
    requires x in s
    ensures forall y :: y in RemoveFirst(s, x) ==> y in s
    ensures forall y :: y in s && y != x ==> y in RemoveFirst(s, x)
  {
    var r := RemoveFirst(s, x);
    forall y | y in r ensures y in s {
      assert y in multiset(r);
    }
    forall y | y in s && y != x ensures y in r {
      assert y in multiset(s);
      assert multiset(r)[y] == multiset(s)[y];
      assert y in multiset(r);
    }
  }

  /** Removing an element that occurs once leaves exactly the other elements. */
  lemma RemoveFirstOfDistinct<T>(s: seq<T>, x: T)
    requires x in s && NoDup(s)
    ensures NoDup(RemoveFirst(s, x))
    ensures forall y :: y in RemoveFirst(s, x) <==> y in s && y != x
  {
    var i := IndexOf(s, x);
    var r := RemoveFirst(s, x);
    assert r == s[..i] + s[i + 1..];
    forall j | 0 <= j < |r| ensures r[j] == s[if j < i then j else j + 1] {
    }
    forall j, k | 0 <= j < k < |r| ensures r[j] != r[k] {
      assert r[j] == s[if j < i then j else j + 1];
      assert r[k] == s[if k < i then k else k + 1];
    }
    forall y | y in r ensures y in s && y != x {
      var j :| 0 <= j < |r| && r[j] == y;
      assert r[j] == s[if j < i then j else j + 1];
    }
    forall y | y in s && y != x ensures y in r {
      var j :| 0 <= j < |s| && s[j] == y;
      if j < i { assert r[j] == y; } else { assert j != i; assert r[j - 1] == y; }
    }
  }

  /** Appending each element unless already collected: keeps the first
      occurrence of every element, in the order of those first occurrences. */
  function Dedup<T(==,!new)>(s: seq<T>): (r: seq<T>)
    ensures NoDup(r)
    ensures forall x :: x in r <==> x in s
    ensures forall i, j :: 0 <= i < j < |r| ==> IndexOf(s, r[i]) < IndexOf(s, r[j])
    decreases |s|
  {
    if |s| == 0 then []
    else
      var p := s[..|s| - 1];
      var last := s[|s| - 1];
      var d := Dedup(p);
      assert s == p + [last];
      assert forall x :: x in p ==> IndexOf(s, x) == IndexOf(p, x) by {
        forall x | x in p ensures IndexOf(s, x) == IndexOf(p, x) { IndexOfExtend(p, last, x); }
      }
      if last in d then d
      else
        IndexOfFresh(p, last);
        d + [last]
  }

  /** Appending to a sequence does not move the first occurrence of an element already there. */
  lemma {:induction false} IndexOfExtend<T>(p: seq<T>, last: T, x: T)
    requires x in p
    ensures IndexOf(p + [last], x) == IndexOf(p, x)
  {
    if p[0] != x {
      assert (p + [last])[1..] == p[1..] + [last];
      IndexOfExtend(p[1..], last, x);
    }
  }

  /** An element first appended at the end is found at the end. */
  lemma {:induction false} IndexOfFresh<T>(p: seq<T>, last: T)
    requires last !in p
    ensures IndexOf(p + [last], last) == |p|
  {
    if |p| > 0 {
      assert (p + [last])[1..] == p[1..] + [last];
      IndexOfFresh(p[1..], last);
    }
  }

  /** The elements of `s` outside `drop`, in their original order. */
  function FilterOut<T(==,!new)>(s: seq<T>, drop: set<T>): (r: seq<T>)
    ensures forall x :: x in r <==> x in s && x !in drop
    ensures |r| <= |s|
  {
    if |s| == 0 then []
    else if s[0] in drop then FilterOut(s[1..], drop)
    else [s[0]] + FilterOut(s[1..], drop)
  }

  /** In a list without duplicates every element is counted once. */
  lemma {:induction false} NoDupCounts<T>(s: seq<T>)
    requires NoDup(s)
    ensures forall x :: multiset(s)[x] == if x in s then 1 else 0
  {
    if |s| > 0 {
      assert s == [s[0]] + s[1..];
      assert NoDup(s[1..]) by {
        forall i, j | 0 <= i < j < |s[1..]| ensures s[1..][i] != s[1..][j] {
          assert s[1..][i] == s[i + 1] && s[1..][j] == s[j + 1];
        }
      }
      NoDupCounts(s[1..]);
    }
  }

  /** A non-empty list without repetitions whose elements all equal `x` is `[x]`. */
  lemma OneValue<T>(s: seq<T>, x: T)
    requires NoDup(s) && |s| > 0 && forall y :: y in s ==> y == x
    ensures s == [x]
  {
    NoDupCounts(s);
    assert s[0] in s;
    assert multiset(s) == multiset{x};
    assert |s| == |multiset(s)|;
  }

  /** The set of elements of a list. */
  function Elems<T>(s: seq<T>): set<T> {
    set x | x in s
  }

  /** Calling `list.remove` once per element of `rem`, in order, each call dropping a first occurrence;
      the caller guarantees that there is always one to drop. */
  function RemoveEach<T(==)>(s: seq<T>, rem: seq<T>): (r: seq<T>)
    requires multiset(rem) <= multiset(s)
    ensures multiset(r) == multiset(s) - multiset(rem)
    decreases |rem|
  {
    if |rem| == 0 then s
    else
      assert rem == [rem[0]] + rem[1..];
      assert rem[0] in multiset(s);
      RemoveEach(RemoveFirst(s, rem[0]), rem[1..])
  }

  /** What survives `RemoveEach`: only elements of `s`, and every element
      of `s` not listed for removal. */
  lemma RemoveEachMembers<T>(s: seq<T>, rem: seq<T>)
    requires multiset(rem) <= multiset(s)
    ensures forall x :: x in RemoveEach(s, rem) ==> x in s
    ensures forall x :: x in s && x !in rem ==> x in RemoveEach(s, rem)
  {
    var r := RemoveEach(s, rem);
    forall x | x in r ensures x in s {
      assert multiset(r)[x] > 0;
    }
    forall x | x in s && x !in rem ensures x in r {
      assert x in multiset(s) && x !in multiset(rem);
      assert multiset(r)[x] == multiset(s)[x] - multiset(rem)[x];
      assert x in multiset(r);
    }
  }

  lemma {:induction false} FilterOutConcat<T(!new)>(a: seq<T>, b: seq<T>, drop: set<T>)
    ensures FilterOut(a + b, drop) == FilterOut(a, drop) + FilterOut(b, drop)
  {
    if |a| == 0 {
      assert a + b == b;
    } else {
      assert (a + b)[0] == a[0];
      assert (a + b)[1..] == a[1..] + b;
      FilterOutConcat(a[1..], b, drop);
    }
  }

  lemma {:induction false} FilterOutNothing<T(!new)>(s: seq<T>, drop: set<T>)
    requires forall x :: x in s ==> x !in drop
    ensures FilterOut(s, drop) == s
  {
    if |s| > 0 {
      FilterOutNothing(s[1..], drop);
    }
  }

  lemma {:induction false} FilterOutTwice<T(!new)>(s: seq<T>, a: set<T>, b: set<T>)
    ensures FilterOut(FilterOut(s, a), b) == FilterOut(s, a + b)
  {
    if |s| > 0 {
      FilterOutTwice(s[1..], a, b);
    }
  }

  lemma {:induction false} FilterOutKeepsDistinct<T(!new)>(s: seq<T>, drop: set<T>)
    requires NoDup(s)
    ensures NoDup(FilterOut(s, drop))
  {
    if |s| > 0 {
      assert NoDup(s[1..]) by {
        forall i, j | 0 <= i < j < |s[1..]| ensures s[1..][i] != s[1..][j] {
          assert s[1..][i] == s[i + 1] && s[1..][j] == s[j + 1];
        }
      }
      FilterOutKeepsDistinct(s[1..], drop);
      var t := FilterOut(s[1..], drop);
      assert s[0] !in s[1..];
      assert s[0] !in t;
    }
  }

  /** In a list without duplicates, `remove(x)` is the filter that drops `x`. */
  lemma RemoveFirstIsFilter<T(!new)>(s: seq<T>, x: T)
    requires x in s && NoDup(s)
    ensures RemoveFirst(s, x) == FilterOut(s, {x})
  {
    var i := IndexOf(s, x);
    assert s == s[..i] + ([x] + s[i + 1..]);
    FilterOutConcat(s[..i], [x] + s[i + 1..], {x});
    FilterOutNothing(s[..i], {x});
    forall j | i + 1 <= j < |s| ensures s[j] != x {
      assert s[i] != s[j];
    }
    assert x !in s[i + 1..];
    FilterOutNothing(s[i + 1..], {x});
  }

  /** The tail of a duplicate-free list is duplicate-free and misses the head. */
  lemma DropHead<T>(s: seq<T>)
    requires |s| > 0 && NoDup(s)
    ensures NoDup(s[1..]) && s[0] !in s[1..]
  {
    forall i, j | 0 <= i < j < |s[1..]| ensures s[1..][i] != s[1..][j] {
      assert s[1..][i] == s[i + 1] && s[1..][j] == s[j + 1];
    }
    forall j | 0 <= j < |s[1..]| ensures s[1..][j] != s[0] {
      assert s[1..][j] == s[j + 1];
    }
  }

  /** A duplicate-free list whose elements all occur in `s` is a sub-multiset of `s`. */
  lemma DistinctSubMultiset<T>(s: seq<T>, rem: seq<T>)
    requires NoDup(rem)
    requires forall x :: x in rem ==> x in s
    ensures multiset(rem) <= multiset(s)
  {
    NoDupCounts(rem);
    forall x ensures multiset(rem)[x] <= multiset(s)[x] {
      if x in rem { assert x in multiset(s); }
    }
  }

  /** One step of `RemoveEach` on duplicate-free lists, seen as a filter. */
  lemma RemoveEachStep<T(!new)>(s: seq<T>, rem: seq<T>)
    requires NoDup(s) && NoDup(rem) && |rem| > 0
    requires forall x :: x in rem ==> x in s
    ensures NoDup(RemoveFirst(s, rem[0])) && NoDup(rem[1..])
    ensures forall x :: x in rem[1..] ==> x in RemoveFirst(s, rem[0])
    ensures FilterOut(RemoveFirst(s, rem[0]), Elems(rem[1..])) == FilterOut(s, Elems(rem))
  {
    var s1 := RemoveFirst(s, rem[0]);
    var tail := rem[1..];
    RemoveFirstIsFilter(s, rem[0]);
    FilterOutKeepsDistinct(s, {rem[0]});
    DropHead(rem);
    FilterOutTwice(s, {rem[0]}, Elems(tail));
    assert Elems(rem) == {rem[0]} + Elems(tail) by {
      assert rem == [rem[0]] + tail;
    }
  }

  /** Removing each element of a duplicate-free list `rem` from a
      duplicate-free list `s` is the order-preserving filter of `s`. */
  lemma {:induction false} RemoveEachIsFilter<T(!new)>(s: seq<T>, rem: seq<T>)
    requires NoDup(s) && NoDup(rem)
    requires forall x :: x in rem ==> x in s
    ensures multiset(rem) <= multiset(s)
    ensures RemoveEach(s, rem) == FilterOut(s, Elems(rem))
    decreases |rem|
  {
    DistinctSubMultiset(s, rem);
    if |rem| > 0 {
      RemoveEachStep(s, rem);
      RemoveEachIsFilter(RemoveFirst(s, rem[0]), rem[1..]);
    } else {
      FilterOutNothing(s, Elems(rem));
    }
  }

  /** `remove` of the head of a non-empty list drops the head. */
  lemma RemoveFirstFront<T>(s: seq<T>)
    requires |s| > 0
    ensures RemoveFirst(s, s[0]) == s[1..]
  {
    assert IndexOf(s, s[0]) == 0;
  }

  /** `remove(x)` of an element other than the head keeps the head. */
  lemma RemoveFirstSkip<T>(s: seq<T>, x: T)
    requires |s| > 0 && x in s[1..] && x != s[0]
    ensures RemoveFirst(s, x) == [s[0]] + RemoveFirst(s[1..], x)
  {
    var t := s[1..];
    var i := IndexOf(t, x);
    assert s[1 + i] == t[i];
    assert IndexOf(s, x) == 1 + i;
    assert s[..1 + i] == [s[0]] + t[..i];
    assert s[1 + i + 1..] == t[i + 1..];
  }

  /** Removing elements other than the head keeps the head in front. */
  lemma {:induction false} RemoveEachFront<T>(s: seq<T>, rem: seq<T>)
    requires |s| > 0 && multiset(rem) <= multiset(s[1..]) && s[0] !in rem
    ensures multiset(rem) <= multiset(s)
    ensures RemoveEach(s, rem) == [s[0]] + RemoveEach(s[1..], rem)
    decreases |rem|
  {
    assert s == [s[0]] + s[1..];
    assert multiset(s) == multiset{s[0]} + multiset(s[1..]);
    if |rem| > 0 {
      var x := rem[0];
      assert rem == [x] + rem[1..];
      assert x in multiset(s[1..]);
      RemoveFirstSkip(s, x);
      var s' := RemoveFirst(s, x);
      assert s'[0] == s[0] && s'[1..] == RemoveFirst(s[1..], x);
      RemoveEachFront(s', rem[1..]);
    }
  }

  /** One step of `RemoveEach`: remove the first listed element, then the rest. */
  lemma RemoveEachCons<T>(s: seq<T>, x: T, rest: seq<T>)
    requires multiset([x] + rest) <= multiset(s)
    ensures x in s && multiset(rest) <= multiset(RemoveFirst(s, x))
    ensures RemoveEach(s, [x] + rest) == RemoveEach(RemoveFirst(s, x), rest)
  {
    var rem := [x] + rest;
    assert rem[0] == x && rem[1..] == rest;
    assert x in multiset(rem);
  }
}
