/** Binary resolution of two clauses on a pivot literal (`resolve`). */
module Resolution {
  import opened Seqs
  import opened Cnf

  /** `resolve` removes `x` and then `-x` from the merged list; either removal
      raises ValueError when the literal is not (still) there. */
  predicate CanResolve(ante: Clause, lis: Clause, x: Literal) {
    x in lis + ante && -x in RemoveFirst(lis + ante, x)
  }

  /** For a proper literal the precondition is just "both pivots occur". */
  lemma CanResolveIff(ante: Clause, lis: Clause, x: Literal)
    requires x != 0
    ensures CanResolve(ante, lis, x) <==> x in lis + ante && -x in lis + ante
  {
    var m := lis + ante;
    if x in m {
      assert multiset(RemoveFirst(m, x))[-x] == multiset(m)[-x];
    }
  }

  /** The merged list with the first `x` and then the first `-x` taken out. */
  function Pivotless(ante: Clause, lis: Clause, x: Literal): (r: Clause)
    requires CanResolve(ante, lis, x)
    ensures multiset(r) == multiset(lis + ante) - multiset{x} - multiset{-x}
  {
    RemoveFirst(RemoveFirst(lis + ante, x), -x)
  }

  /** Which literals survive the removal of the pivots. */
  lemma PivotlessMembers(ante: Clause, lis: Clause, x: Literal)
    requires CanResolve(ante, lis, x)
    ensures forall l :: l in Pivotless(ante, lis, x) ==> l in lis + ante
    ensures forall l :: l in lis + ante && l != x && l != -x ==> l in Pivotless(ante, lis, x)
    ensures multiset(lis + ante)[x] == 1 && multiset(lis + ante)[-x] == 1 ==>
              x !in Pivotless(ante, lis, x) && -x !in Pivotless(ante, lis, x)
  {
    var m := lis + ante;
    var p := Pivotless(ante, lis, x);
    forall l | l in p ensures l in m {
      assert multiset(p)[l] > 0;
    }
    forall l | l in m && l != x && l != -x ensures l in p {
      assert multiset(m)[l] > 0;
      assert multiset(p)[l] == multiset(m)[l];
    }
    if multiset(m)[x] == 1 && multiset(m)[-x] == 1 {
      assert multiset(p)[x] == 0;
      assert multiset(p)[-x] == 0;
    }
  }

  /** `resolve(ante, lis, x)`: merge the working clause and the antecedent,
      drop one copy of each pivot and deduplicate in first-occurrence order. */
  function Resolve(ante: Clause, lis: Clause, x: Literal): (r: Clause)
    requires CanResolve(ante, lis, x)
    ensures NoDup(r)
    ensures forall l :: l in r <==> l in Pivotless(ante, lis, x)
    ensures forall l :: l in r ==> l in lis + ante
    ensures forall l :: l in lis + ante && l != x && l != -x ==> l in r
    ensures multiset(lis + ante)[x] == 1 && multiset(lis + ante)[-x] == 1 ==> x !in r && -x !in r
    ensures forall i, j :: 0 <= i < j < |r| ==>
              IndexOf(Pivotless(ante, lis, x), r[i]) < IndexOf(Pivotless(ante, lis, x), r[j])
  {
    var p := Pivotless(ante, lis, x);
    PivotlessMembers(ante, lis, x);
    Dedup(p)
  }
}
