/** The branching heuristic: occurrence scores and polarities per variable
    (`update_freq_polar`), their periodic halving (`decay_freq`), the choice
    of the next decision (`decide`, `preprocess`) and the sorted list of
    assigned variables that ends the search (`update_variables`).

    Scores are Python numbers that start as integers and become floats once
    halved; they are modelled as `real`, so halving is exact. */
module Heuristic {
  import opened Seqs
  import opened Cnf
  import opened Assignment

  /** How many times literal `x` occurs in the clause. */
  function Count(c: Clause, x: Literal): nat {
    multiset(c)[x]
  }

  /** Appending a literal adds one occurrence of it and of nothing else. */
  lemma CountSnoc(p: Clause, l: Literal)
    ensures forall x :: Count(p + [l], x) == Count(p, x) + (if x == l then 1 else 0)
  {
    assert multiset(p + [l]) == multiset(p) + multiset{l};
  }

  /** `update_freq_polar(clause)`: every literal adds 1 to the score of its
      variable and +1 or -1, by its sign, to the polarity of its variable.
      Both tables are indexed by `variable - 1`. */
  function UpdateFreqPolar(freq: seq<real>, polar: seq<int>, c: Clause): (r: (seq<real>, seq<int>))
    requires |polar| == |freq| && WithinVars(c, |freq|)
    ensures |r.0| == |freq| && |r.1| == |freq|
    ensures forall i :: 0 <= i < |freq| ==> r.0[i] == freq[i] + (Count(c, i + 1) + Count(c, -(i + 1))) as real
    ensures forall i :: 0 <= i < |freq| ==> r.1[i] == polar[i] + Count(c, i + 1) - Count(c, -(i + 1))
    decreases |c|
  {
    if |c| == 0 then (freq, polar)
    else
      var p := c[..|c| - 1];
      var l := c[|c| - 1];
      assert c == p + [l];
      assert l in c;
      var (f, q) := UpdateFreqPolar(freq, polar, p);
      var k := Abs(l) - 1;
      CountSnoc(p, l);
      (f[k := f[k] + 1.0], q[k := q[k] + (if l > 0 then 1 else -1)])
  }

  /** How many times literal `x` occurs in the whole formula. */
  function Occurrences(cfn: Formula, x: Literal): nat
    decreases |cfn|
  {
    if |cfn| == 0 then 0 else Count(cfn[0], x) + Occurrences(cfn[1..], x)
  }

  /** The loop of `solve` scoring every clause of the formula: each variable
      gains its number of occurrences in the formula, and its polarity the
      positive minus the negative occurrences. */
  function ScoreFormula(freq: seq<real>, polar: seq<int>, cfn: Formula): (r: (seq<real>, seq<int>))
    requires |polar| == |freq| && FormulaWithinVars(cfn, |freq|)
    ensures |r.0| == |freq| && |r.1| == |freq|
    ensures forall i :: 0 <= i < |freq| ==> r.0[i] == freq[i] + (Occurrences(cfn, i + 1) + Occurrences(cfn, -(i + 1))) as real
    ensures forall i :: 0 <= i < |freq| ==> r.1[i] == polar[i] + Occurrences(cfn, i + 1) - Occurrences(cfn, -(i + 1))
    ensures (forall i :: 0 <= i < |freq| ==> freq[i] >= 0.0) ==> forall i :: 0 <= i < |r.0| ==> r.0[i] >= 0.0
    decreases |cfn|
  {
    if |cfn| == 0 then (freq, polar)
    else
      var (f, q) := UpdateFreqPolar(freq, polar, cfn[0]);
      ScoreFormula(f, q, cfn[1..])
  }

  /** The scores a decision works with, and the conflict counter that
      triggers their decay. */
  datatype Scores = Scores(freq: seq<real>, polar: seq<int>, orig: seq<real>, conflicts: nat)

  /** Scores are sized for `n` variables. */
  predicate Sized(s: Scores, n: nat) {
    |s.freq| == n && |s.polar| == n && |s.orig| == n
  }

  /** A score is either the marker -1 of an assigned variable or not negative. */
  predicate Healthy(freq: seq<real>) {
    forall i :: 0 <= i < |freq| ==> freq[i] == -1.0 || freq[i] >= 0.0
  }

  /** `decay_freq`: after more than 100 conflicts the counter is taken modulo
      100 and every score is halved, the original scores always and the
      current ones unless they hold the marker -1. */
  function DecayFreq(s: Scores): (r: Scores)
    requires |s.orig| == |s.freq|
    ensures |r.freq| == |s.freq| && |r.orig| == |s.orig| && r.polar == s.polar
    ensures s.conflicts <= 100 ==> r == s
    ensures s.conflicts > 100 ==> r.conflicts < 100 && r.conflicts == s.conflicts % 100
    ensures s.conflicts > 100 ==> forall i :: 0 <= i < |r.freq| ==>
              r.orig[i] + r.orig[i] == s.orig[i] &&
              (s.freq[i] == -1.0 ==> r.freq[i] == -1.0) &&
              (s.freq[i] != -1.0 ==> r.freq[i] + r.freq[i] == s.freq[i])
  {
    if s.conflicts > 100 then
      Scores(seq(|s.freq|, i requires 0 <= i < |s.freq| => if s.freq[i] != -1.0 then s.freq[i] / 2.0 else s.freq[i]),
             s.polar,
             seq(|s.orig|, i requires 0 <= i < |s.orig| => s.orig[i] / 2.0),
             s.conflicts % 100)
    else s
  }

  /** The largest score (Python's `max`, which raises on an empty list). */
  function MaxOf(s: seq<real>): (m: real)
    requires |s| > 0
    ensures m in s
    ensures forall i :: 0 <= i < |s| ==> s[i] <= m
    decreases |s|
  {
    if |s| == 1 then s[0]
    else
      var m := MaxOf(s[..|s| - 1]);
      assert forall i :: 0 <= i < |s| - 1 ==> s[..|s| - 1][i] == s[i];
      assert m in s by { assert m in s[..|s| - 1]; }
      if s[|s| - 1] > m then s[|s| - 1] else m
  }

  /** Marking the assigned variables: each listed variable gets score -1. */
  function MarkAssigned(freq: seq<real>, vars: seq<int>): (r: seq<real>)
    requires forall j :: 0 <= j < |vars| ==> 1 <= vars[j] <= |freq|
    ensures |r| == |freq|
    ensures forall i :: 0 <= i < |r| ==> r[i] == if i + 1 in vars then -1.0 else freq[i]
    decreases |vars|
  {
    if |vars| == 0 then freq
    else
      var p := vars[..|vars| - 1];
      var v := vars[|vars| - 1];
      assert vars == p + [v];
      var f := MarkAssigned(freq, p);
      if f[v - 1] != -1.0 then f[v - 1 := -1.0] else f
  }

  /** The result of `decide`: the variable, its value, and the scores after
      marking and decay. */
  datatype Choice = Choice(variable: nat, sign: bool, scores: Scores)

  /** `decide`: mark the assigned variables with -1, decay, and pick the first
      variable of highest score; its value is 1 exactly when its polarity is
      positive. */
  function Decide(s: Scores, vars: seq<int>): (r: Choice)
    requires |s.freq| > 0 && Sized(s, |s.freq|)
    requires forall j :: 0 <= j < |vars| ==> 1 <= vars[j] <= |s.freq|
    ensures Sized(r.scores, |s.freq|) && r.scores.polar == s.polar
    ensures r.scores == DecayFreq(Scores(MarkAssigned(s.freq, vars), s.polar, s.orig, s.conflicts))
    ensures 1 <= r.variable <= |s.freq|
    ensures forall i :: 0 <= i < |s.freq| ==> r.scores.freq[i] <= r.scores.freq[r.variable - 1]
    ensures forall i :: 0 <= i < r.variable - 1 ==> r.scores.freq[i] < r.scores.freq[r.variable - 1]
    ensures forall i :: 0 <= i < |s.freq| && i + 1 in vars ==> r.scores.freq[i] == -1.0
    ensures r.sign <==> s.polar[r.variable - 1] > 0
  {
    var marked := MarkAssigned(s.freq, vars);
    var d := DecayFreq(Scores(marked, s.polar, s.orig, s.conflicts));
    var m := MaxOf(d.freq);
    var k := IndexOf(d.freq, m);
    IndexOfBefore(d.freq, m);
    Choice(k + 1, s.polar[k] > 0, d)
  }

  /** Halving a marker-or-nonnegative score table keeps it so. */
  lemma DecayHealthy(s: Scores)
    requires |s.orig| == |s.freq| && Healthy(s.freq)
    ensures Healthy(DecayFreq(s).freq)
  {
  }

  /** While some unassigned variable has a score that is not negative,
      `decide` never picks an assigned variable: assigned variables carry
      the marker -1, which the unassigned one beats before and after decay. */
  lemma DecidePicksUnassigned(s: Scores, vars: seq<int>, u: nat)
    requires |s.freq| > 0 && Sized(s, |s.freq|)
    requires forall j :: 0 <= j < |vars| ==> 1 <= vars[j] <= |s.freq|
    requires 1 <= u <= |s.freq| && u !in vars && s.freq[u - 1] >= 0.0
    ensures Decide(s, vars).variable !in vars
  {
    var r := Decide(s, vars);
    var marked := MarkAssigned(s.freq, vars);
    assert marked[u - 1] >= 0.0;
    assert r.scores.freq[u - 1] >= 0.0;
  }

  /** The first position of a value is at or before any position holding it. */
  lemma IndexOfFirst(s: seq<real>, k: nat)
    requires k < |s|
    ensures IndexOf(s, s[k]) <= k
  {
    var r := IndexOf(s, s[k]);
    forall j | 0 <= j < r ensures s[j] != s[k] {
      assert s[j] == s[..r][j];
    }
  }

  /** Two score tables ordered alike have their first maximum at the same place. */
  lemma SameOrderSameChoice(x: seq<real>, y: seq<real>)
    requires |x| == |y| > 0
    requires forall i, j :: 0 <= i < |x| && 0 <= j < |x| ==> (x[i] <= x[j] <==> y[i] <= y[j])
    ensures IndexOf(x, MaxOf(x)) == IndexOf(y, MaxOf(y))
  {
    var kx := IndexOf(x, MaxOf(x));
    var ky := IndexOf(y, MaxOf(y));
    assert x[ky] == MaxOf(x) by {
      forall i | 0 <= i < |x| ensures x[i] <= x[ky] {
        assert y[i] <= y[ky];
      }
    }
    assert y[kx] == MaxOf(y) by {
      forall i | 0 <= i < |y| ensures y[i] <= y[kx] {
        assert x[i] <= x[kx];
      }
    }
    IndexOfFirst(x, ky);
    IndexOfFirst(y, kx);
  }

  /** Decay does not change which variable `decide` picks: halving keeps the
      order of the non-negative scores and leaves the markers below them. */
  lemma DecayKeepsChoice(s: Scores, vars: seq<int>)
    requires |s.freq| > 0 && Sized(s, |s.freq|) && Healthy(s.freq)
    requires forall j :: 0 <= j < |vars| ==> 1 <= vars[j] <= |s.freq|
    ensures Decide(s, vars).variable == Decide(s.(conflicts := 0), vars).variable
  {
    var marked := MarkAssigned(s.freq, vars);
    var d := DecayFreq(Scores(marked, s.polar, s.orig, s.conflicts)).freq;
    assert Healthy(marked);
    forall i, j | 0 <= i < |marked| && 0 <= j < |marked| ensures d[i] <= d[j] <==> marked[i] <= marked[j] {
    }
    SameOrderSameChoice(d, marked);
  }

  /** Strictly increasing: sorted and without repetition. */
  predicate StrictlySorted(s: seq<int>) {
    forall i, j :: 0 <= i < j < |s| ==> s[i] < s[j]
  }

  /** Insert a new element into a strictly increasing list. */
  function Insert(s: seq<int>, x: int): (r: seq<int>)
    requires StrictlySorted(s) && x !in s
    ensures StrictlySorted(r)
    ensures forall y :: y in r <==> y in s || y == x
    decreases |s|
  {
    if |s| == 0 then [x]
    else if x < s[0] then [x] + s
    else
      assert forall y :: y in s <==> y == s[0] || y in s[1..] by {
        assert s == [s[0]] + s[1..];
      }
      assert StrictlySorted(s[1..]);
      var t := Insert(s[1..], x);
      forall j | 0 <= j < |t| ensures s[0] < t[j] {
        assert t[j] in t;
        if t[j] in s[1..] {
          var i :| 0 <= i < |s[1..]| && s[1..][i] == t[j];
          assert s[i + 1] == t[j];
        }
      }
      [s[0]] + t
  }

  /** Python's `sorted` on a list without repetition. */
  function SortDistinct(s: seq<int>): (r: seq<int>)
    requires NoDup(s)
    ensures StrictlySorted(r)
    ensures forall y :: y in r <==> y in s
    decreases |s|
  {
    if |s| == 0 then []
    else
      var p := s[..|s| - 1];
      var x := s[|s| - 1];
      assert s == p + [x];
      assert x !in p by {
        forall i | 0 <= i < |p| ensures p[i] != x {
          assert p[i] == s[i];
        }
      }
      Insert(SortDistinct(p), x)
  }

  /** The head of a strictly increasing list is below every element of a
      list whose elements it contains. */
  lemma SortedHead(a: seq<int>, b: seq<int>)
    requires StrictlySorted(a) && |a| > 0 && |b| > 0
    requires forall x :: x in b ==> x in a
    ensures a[0] <= b[0]
  {
    assert b[0] in b;
    var k :| 0 <= k < |a| && a[k] == b[0];
  }

  /** The tail of a strictly increasing list holds everything but the head. */
  lemma SortedTail(a: seq<int>, x: int)
    requires StrictlySorted(a) && |a| > 0
    ensures x in a[1..] <==> x in a && x != a[0]
  {
    assert a == [a[0]] + a[1..];
    if x in a[1..] {
      var k :| 0 <= k < |a[1..]| && a[1..][k] == x;
      assert a[k + 1] == x;
    }
  }

  /** A non-empty list contained in another makes that one non-empty too. */
  lemma NonEmptyMatch(a: seq<int>, b: seq<int>)
    requires forall x :: x in a ==> x in b
    ensures |a| > 0 ==> |b| > 0
  {
    if |a| > 0 {
      var y := a[0];
      assert y in a;
    }
  }

  /** Two strictly increasing lists with the same elements are equal:
      a sorted list is determined by its set of elements. */
  lemma {:induction false} SortedUnique(a: seq<int>, b: seq<int>)
    requires StrictlySorted(a) && StrictlySorted(b)
    requires forall x :: x in a <==> x in b
    ensures a == b
    decreases |a|
  {
    NonEmptyMatch(a, b);
    NonEmptyMatch(b, a);
    if |a| > 0 {
      assert a == [a[0]] + a[1..];
      assert b == [b[0]] + b[1..];
      SortedHead(a, b);
      SortedHead(b, a);
      forall x ensures x in a[1..] <==> x in b[1..] {
        SortedTail(a, x);
        SortedTail(b, x);
      }
      SortedUnique(a[1..], b[1..]);
    }
  }

  /** The variables of the trail entries, in trail order. */
  function VariablesOf(trail: seq<Entry>): (r: seq<int>)
    ensures |r| == |trail| && forall i :: 0 <= i < |trail| ==> r[i] == trail[i].variable
  {
    seq(|trail|, i requires 0 <= i < |trail| => trail[i].variable)
  }

  /** Some trail entry holds variable `v`. */
  predicate Assigned(trail: seq<Entry>, v: int) {
    exists i :: 0 <= i < |trail| && trail[i].variable == v
  }

  /** `update_variables`: the distinct variables of the trail, sorted. */
  function UpdateVariables(trail: seq<Entry>): (r: seq<int>)
    ensures StrictlySorted(r)
    ensures forall v :: v in r <==> Assigned(trail, v)
  {
    var vs := VariablesOf(trail);
    assert forall v :: v in vs <==> Assigned(trail, v);
    SortDistinct(Dedup(vs))
  }

  /** `self.total`: the list `[1, ..., n]`. */
  function Total(n: nat): (r: seq<int>)
    ensures StrictlySorted(r)
    ensures forall v :: v in r <==> 1 <= v <= n
  {
    var r := seq(n, i requires 0 <= i < n => i + 1);
    forall v | 1 <= v <= n ensures v in r {
      assert r[v - 1] == v;
    }
    r
  }

  /** The search loop stops exactly when every variable 1..n, and no other,
      has an entry on the trail. */
  lemma AllAssigned(trail: seq<Entry>, n: nat)
    ensures UpdateVariables(trail) == Total(n) <==> forall v :: Assigned(trail, v) <==> 1 <= v <= n
  {
    if forall v :: Assigned(trail, v) <==> 1 <= v <= n {
      SortedUnique(UpdateVariables(trail), Total(n));
    }
  }
}
