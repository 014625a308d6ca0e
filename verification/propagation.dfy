/** Unit propagation and conflict detection (`detect_conflict`, `is_var`,
    `find_literal`).

    The scan works on a private copy of the clauses. For each trail entry in
    order (including the entries the scan itself appends) it takes the
    literal `z` that entry falsifies and visits every clause in storage
    order: a clause holding the entry's true literal `-z` is seen as the
    one-literal list `[-z]` for this visit only; otherwise the first copy of
    `z` is deleted from the working copy for good. A visited list of one
    literal implies that literal; an empty one is the conflict. */
module Propagation {
  import opened Seqs
  import opened Cnf
  import opened Assignment

  /** The state the scan threads through: trail, antecedents, the working
      copy of the clauses, and whether a conflict stopped the scan. */
  datatype Scan = Scan(trail: seq<Entry>, ante: Antecedents, eq: seq<Clause>, conflict: bool)

  /** The result of `detect_conflict`. */
  datatype Detection = Detection(conflict: bool, trail: seq<Entry>, ante: Antecedents)

  /** Clause `k` of the formula forces `x`: it contains `x` and the trail
      falsifies every other literal of it. */
  predicate Implied(cfn: Formula, trail: seq<Entry>, x: Literal, k: int) {
    0 <= k < |cfn| && x in cfn[k] && forall l :: l in cfn[k] && l != x ==> IsTrue(trail, -l)
  }

  /** The trail falsifies every literal of clause `k`. */
  predicate Falsified(cfn: Formula, trail: seq<Entry>, k: int) {
    0 <= k < |cfn| && forall l :: l in cfn[k] ==> IsTrue(trail, -l)
  }

  /** A clause that repeats no literal and holds no literal together with
      its negation. */
  predicate Proper(c: Clause) {
    NoDup(c) && forall l :: l in c ==> -l !in c
  }

  /** No proper clause of the formula is falsified by the trail. */
  predicate NoneFalsified(cfn: Formula, trail: seq<Entry>) {
    forall k :: 0 <= k < |cfn| && Proper(cfn[k]) ==> !Falsified(cfn, trail, k)
  }

  /** Every literal that a proper clause forces is true: the trail is closed
      under unit propagation. */
  predicate Propagated(cfn: Formula, trail: seq<Entry>) {
    forall k, x :: 0 <= k < |cfn| && x in cfn[k] && Proper(cfn[k]) && Implied(cfn, trail, x, k) ==> IsTrue(trail, x)
  }

  /** The empty clause is proper and falsified by every trail. */
  lemma EmptyClauseFalsified(cfn: Formula, trail: seq<Entry>)
    ensures NoneFalsified(cfn, trail) ==> [] !in cfn
  {
    if [] in cfn {
      var k :| 0 <= k < |cfn| && cfn[k] == [];
      assert Proper(cfn[k]) && Falsified(cfn, trail, k);
    }
  }

  /** Literals of the formula that the trail does not yet make true. The scan
      only ever appends such a literal, which bounds how long it can run. */
  function Open(cfn: Formula, trail: seq<Entry>): set<Literal> {
    set l | l in Lits(cfn) && !IsTrue(trail, l)
  }

  /** `find_literal(x)`: append `x` at the current level unless some entry
      already makes `x` true. Python's `True` result is "the trail grew". */
  function FindLiteral(trail: seq<Entry>, x: Literal, level: nat): (r: seq<Entry>)
    ensures trail <= r && |r| <= |trail| + 1
    ensures |r| == |trail| + 1 <==> !IsTrue(trail, x)
    ensures |r| == |trail| + 1 ==> TrueLit(r[|trail|]) == x && r[|trail|].level == level
    ensures x != 0 ==> IsTrue(r, x) && (|r| == |trail| + 1 ==> r[|trail|].variable >= 1)
  {
    if IsTrue(trail, x) then trail
    else
      var r := trail + [EntryFor(x, level)];
      assert x != 0 ==> Asserts(r[|trail|], x);
      r
  }

  /** `is_var(index, lis, z)`: a list reduced to one literal `x` calls
      `find_literal(x)`; when that appended `x` and `x` is not the literal that
      satisfied the clause, clause `index` is recorded as the antecedent of `x`. */
  function IsVar(trail: seq<Entry>, ante: Antecedents, level: nat, index: int, lis: Clause, z: Literal)
    : (r: (seq<Entry>, Antecedents))
    ensures trail <= r.0 && |r.0| <= |trail| + 1
    ensures |r.0| == |trail| + 1 ==> |lis| == 1 && !IsTrue(trail, lis[0]) && TrueLit(r.0[|trail|]) == lis[0]
    ensures |r.0| == |trail| + 1 ==> r.0[|trail|].level == level && (lis[0] != 0 ==> r.0[|trail|].variable >= 1)
    ensures |lis| == 1 && lis[0] != 0 ==> IsTrue(r.0, lis[0])
    ensures forall y :: y in r.1 <==> y in ante || (|r.0| > |trail| && lis[0] != -z && y == lis[0])
    ensures forall y :: y in r.1 ==>
              (y in ante && r.1[y] == ante[y]) || (|r.0| > |trail| && lis[0] != -z && y == lis[0] && r.1[y] == index)
  {
    if |lis| == 1 then
      var x := lis[0];
      var t := FindLiteral(trail, x, level);
      if |t| > |trail| && x != -z then (t, ante[x := index]) else (t, ante)
    else (trail, ante)
  }

  /** The list `is_var` and the emptiness test see for a clause whose working
      copy is `c` when the trail falsifies `z`. */
  function View(c: Clause, z: Literal): (r: Clause)
    ensures -z in c && z != 0 ==> r == [-z]
    ensures -z !in c ==> forall l :: l in r <==> l in c && (l != z || multiset(c)[z] > 1)
  {
    var lis := if -z in c then [-z] else c;
    if z in lis then
      RemoveFirstMembers(lis, z);
      var r := RemoveFirst(lis, z);
      assert forall l :: l in r <==> multiset(r)[l] > 0;
      r
    else lis
  }

  /** What remains in the working copy afterwards: a satisfied clause is only
      viewed as `[-z]`, never overwritten. */
  function Stored(c: Clause, z: Literal): Clause {
    if -z in c then c else View(c, z)
  }

  /** One visit of the inner loop of `detect_conflict`: clause `k` under the
      falsified literal `z`. */
  function ClauseStep(level: nat, z: Literal, k: nat, st: Scan): (r: Scan)
    requires k < |st.eq|
  {
    var lis := View(st.eq[k], z);
    var eq := st.eq[k := Stored(st.eq[k], z)];
    var (t, a) := IsVar(st.trail, st.ante, level, k, lis, z);
    if |lis| == 0 then Scan(t, a[0 := k], eq, true) else Scan(t, a, eq, false)
  }

  // ---------------------------------------------------------------------
  // The invariant of the scan, relative to the trail `trail0` and the
  // antecedents `ante0` that `detect_conflict` started from.

  /** The working copy only loses literals, and each lost literal is false. */
  predicate EqInv(cfn: Formula, eq: seq<Clause>, trail: seq<Entry>) {
    && |eq| == |cfn|
    && (forall k, l :: 0 <= k < |cfn| && l in eq[k] ==> l in cfn[k])
    && (forall k, l :: 0 <= k < |cfn| && l in cfn[k] && l !in eq[k] ==> IsTrue(trail, -l))
  }

  /** The trail only grows, at the current level, with proper variables. */
  predicate TrailInv(level: nat, trail0: seq<Entry>, trail: seq<Entry>) {
    && Positive(trail)
    && trail0 <= trail
    && (forall i :: |trail0| <= i < |trail| ==> trail[i].level == level)
  }

  /** Every appended entry is justified by its recorded antecedent clause;
      every other change to the map is such a record, or the conflict key. */
  predicate AnteInv(cfn: Formula, trail0: seq<Entry>, ante0: Antecedents, st: Scan) {
    && (forall i :: |trail0| <= i < |st.trail| ==>
          TrueLit(st.trail[i]) in st.ante && Implied(cfn, st.trail, TrueLit(st.trail[i]), st.ante[TrueLit(st.trail[i])]))
    && (forall x :: x in st.ante && x != 0 ==> (x in ante0 && st.ante[x] == ante0[x]) || Implied(cfn, st.trail, x, st.ante[x]))
    && (forall x :: x in ante0 ==> x in st.ante)
    && (st.conflict ==> 0 in st.ante && Falsified(cfn, st.trail, st.ante[0]))
    && (!st.conflict ==> (0 in st.ante <==> 0 in ante0) && (0 in ante0 ==> st.ante[0] == ante0[0]))
  }

  predicate Inv(cfn: Formula, level: nat, trail0: seq<Entry>, ante0: Antecedents, st: Scan) {
    EqInv(cfn, st.eq, st.trail) && TrailInv(level, trail0, st.trail) && AnteInv(cfn, trail0, ante0, st)
  }

  lemma ImpliedGrows(cfn: Formula, trail: seq<Entry>, ext: seq<Entry>)
    requires trail <= ext
    ensures forall x, k :: Implied(cfn, trail, x, k) ==> Implied(cfn, ext, x, k)
    ensures forall k :: Falsified(cfn, trail, k) ==> Falsified(cfn, ext, k)
    ensures forall eq :: EqInv(cfn, eq, trail) ==> EqInv(cfn, eq, ext)
  {
    IsTrueGrows(trail, ext);
  }

  /** The open literals never grow, and shrink whenever the trail does grow. */
  lemma OpenShrinks(cfn: Formula, trail: seq<Entry>, ext: seq<Entry>)
    requires trail <= ext
    requires |ext| > |trail| ==> exists x :: x in Lits(cfn) && !IsTrue(trail, x) && IsTrue(ext, x)
    ensures Open(cfn, ext) <= Open(cfn, trail)
    ensures |Open(cfn, ext)| <= |Open(cfn, trail)|
    ensures |ext| > |trail| ==> |Open(cfn, ext)| < |Open(cfn, trail)|
  {
    IsTrueGrows(trail, ext);
    var a, b := Open(cfn, ext), Open(cfn, trail);
    assert b == a + (b - a);
    if |ext| > |trail| {
      var x :| x in Lits(cfn) && !IsTrue(trail, x) && IsTrue(ext, x);
      assert x in b - a;
    }
  }

  // ---------------------------------------------------------------------
  // One visit preserves the invariant.

  /** The working copy after one visit still only lost false literals. */
  lemma StepEq(cfn: Formula, z: Literal, k: nat, st: Scan)
    requires EqInv(cfn, st.eq, st.trail) && k < |cfn|
    requires z != 0 && IsTrue(st.trail, -z)
    ensures EqInv(cfn, st.eq[k := Stored(st.eq[k], z)], st.trail)
  {
    var c := st.eq[k];
    var s := Stored(c, z);
    var eq := st.eq[k := s];
    assert forall l :: l in s ==> l in c;
    forall j, l | 0 <= j < |cfn| && l in eq[j] ensures l in cfn[j] {
      if j == k { assert l in c; }
    }
    forall j, l | 0 <= j < |cfn| && l in cfn[j] && l !in eq[j] ensures IsTrue(st.trail, -l) {
      if j == k && l in c { assert l == z; }
    }
  }

  /** What one visit does to the trail: at most one entry, at the current
      level, for a literal of the visited clause that was not yet true. */
  lemma StepTrail(cfn: Formula, level: nat, trail0: seq<Entry>, z: Literal, k: nat, st: Scan)
    requires EqInv(cfn, st.eq, st.trail) && TrailInv(level, trail0, st.trail) && k < |cfn|
    requires NoZero(cfn) && z != 0 && IsTrue(st.trail, -z)
    ensures var r := ClauseStep(level, z, k, st);
      && TrailInv(level, trail0, r.trail)
      && st.trail <= r.trail && |r.trail| <= |st.trail| + 1
      && (|r.trail| > |st.trail| ==>
            var x := TrueLit(r.trail[|st.trail|]);
            -z !in st.eq[k] && View(st.eq[k], z) == [x] && x in cfn[k] && x != 0 && x != -z && !IsTrue(st.trail, x))
  {
    var r := ClauseStep(level, z, k, st);
    var c := st.eq[k];
    var lis := View(c, z);
    if |r.trail| > |st.trail| {
      var x := lis[0];
      assert !IsTrue(st.trail, x);
      assert -z !in c;
      assert lis == [x];
      assert x in c;
      assert x in cfn[k];
    }
  }

  /** One visit shrinks the open literals whenever it extends the trail. */
  lemma StepMeasure(cfn: Formula, level: nat, trail0: seq<Entry>, z: Literal, k: nat, st: Scan)
    requires EqInv(cfn, st.eq, st.trail) && TrailInv(level, trail0, st.trail) && k < |cfn|
    requires NoZero(cfn) && z != 0 && IsTrue(st.trail, -z)
    ensures var r := ClauseStep(level, z, k, st);
      && |Open(cfn, r.trail)| <= |Open(cfn, st.trail)|
      && (|r.trail| > |st.trail| ==> |Open(cfn, r.trail)| < |Open(cfn, st.trail)|)
  {
    var r := ClauseStep(level, z, k, st);
    StepTrail(cfn, level, trail0, z, k, st);
    if |r.trail| > |st.trail| {
      var x := TrueLit(r.trail[|st.trail|]);
      assert View(st.eq[k], z) == [x];
      assert IsTrue(r.trail, x);
      assert x in Lits(cfn);
    }
    OpenShrinks(cfn, st.trail, r.trail);
  }

  /** A visit that empties the clause records it under key 0, and the trail
      falsifies all of it. */
  lemma StepConflict(cfn: Formula, level: nat, trail0: seq<Entry>, ante0: Antecedents, z: Literal, k: nat, st: Scan)
    requires Inv(cfn, level, trail0, ante0, st) && !st.conflict && k < |cfn|
    requires NoZero(cfn) && z != 0 && IsTrue(st.trail, -z)
    requires |View(st.eq[k], z)| == 0
    ensures AnteInv(cfn, trail0, ante0, ClauseStep(level, z, k, st))
  {
    var r := ClauseStep(level, z, k, st);
    StepEq(cfn, z, k, st);
    assert r.trail == st.trail;
    assert r.eq[k] == [];
    assert Falsified(cfn, st.trail, k);
  }

  /** A visit that does not empty the clause keeps every justification and
      justifies the literal it appends. */
  lemma StepNoConflict(cfn: Formula, level: nat, trail0: seq<Entry>, ante0: Antecedents, z: Literal, k: nat, st: Scan)
    requires Inv(cfn, level, trail0, ante0, st) && !st.conflict && k < |cfn|
    requires NoZero(cfn) && z != 0 && IsTrue(st.trail, -z)
    requires |View(st.eq[k], z)| != 0
    ensures AnteInv(cfn, trail0, ante0, ClauseStep(level, z, k, st))
  {
    var r := ClauseStep(level, z, k, st);
    StepEq(cfn, z, k, st);
    StepTrail(cfn, level, trail0, z, k, st);
    ImpliedGrows(cfn, st.trail, r.trail);
    assert EqInv(cfn, r.eq, r.trail);
    if |r.trail| > |st.trail| {
      var x := TrueLit(r.trail[|st.trail|]);
      assert r.eq[k] == [x];
      assert r.ante[x] == k;
      assert Implied(cfn, r.trail, x, k);
      forall i | |trail0| <= i < |st.trail| ensures TrueLit(st.trail[i]) != x {
        AssertsIffTrueLit(st.trail[i], TrueLit(st.trail[i]));
      }
    }
  }

  /** One visit preserves the whole invariant. */
  lemma StepInv(cfn: Formula, level: nat, trail0: seq<Entry>, ante0: Antecedents, z: Literal, k: nat, st: Scan)
    requires Inv(cfn, level, trail0, ante0, st) && !st.conflict && k < |cfn|
    requires NoZero(cfn) && z != 0 && IsTrue(st.trail, -z)
    ensures Inv(cfn, level, trail0, ante0, ClauseStep(level, z, k, st))
  {
    var r := ClauseStep(level, z, k, st);
    StepEq(cfn, z, k, st);
    StepTrail(cfn, level, trail0, z, k, st);
    ImpliedGrows(cfn, st.trail, r.trail);
    if |View(st.eq[k], z)| == 0 {
      StepConflict(cfn, level, trail0, ante0, z, k, st);
    } else {
      StepNoConflict(cfn, level, trail0, ante0, z, k, st);
    }
  }

  // ---------------------------------------------------------------------
  // What a scan without conflict has achieved: the invariant behind the
  // completeness of `detect_conflict`.

  /** A visited working copy is not empty, and one of a single literal holds
      a true literal. */
  predicate Settled(c: Clause, trail: seq<Entry>) {
    |c| > 0 && (|c| == 1 ==> IsTrue(trail, c[0]))
  }

  /** Entries `0..done-1` have been handled against every clause, and entry
      `done` against clauses `0..k-1`, without a conflict: the working copy
      of a proper clause repeats nothing and no longer holds the falsified
      literal of a handled entry, and every visited working copy is settled. */
  predicate Handled(cfn: Formula, eq: seq<Clause>, trail: seq<Entry>, done: nat, k: nat) {
    && |eq| == |cfn| && done <= |trail|
    && (forall j :: 0 <= j < |cfn| && Proper(cfn[j]) ==> NoDup(eq[j]))
    && (forall i, j :: 0 <= i < done && 0 <= j < |cfn| && Proper(cfn[j]) ==> -TrueLit(trail[i]) !in eq[j])
    && (forall j :: 0 <= j < k && j < |cfn| && done < |trail| && Proper(cfn[j]) ==> -TrueLit(trail[done]) !in eq[j])
    && (forall j :: 0 <= j < |cfn| && (done > 0 || j < k) ==> Settled(eq[j], trail))
  }

  /** What one visit without conflict leaves in the working copy of a proper
      clause: no repetition, not the falsified literal, and a settled list. */
  lemma StoredProper(cfn: Formula, level: nat, z: Literal, k: nat, st: Scan)
    requires EqInv(cfn, st.eq, st.trail) && Positive(st.trail) && k < |cfn|
    requires NoZero(cfn) && z != 0 && IsTrue(st.trail, -z)
    requires Proper(cfn[k]) ==> NoDup(st.eq[k])
    ensures var r := ClauseStep(level, z, k, st);
      && (forall l :: l in r.eq[k] ==> l in st.eq[k])
      && (Proper(cfn[k]) ==> NoDup(r.eq[k]) && z !in r.eq[k])
      && (!r.conflict ==> Settled(r.eq[k], r.trail))
  {
    var r := ClauseStep(level, z, k, st);
    var c := st.eq[k];
    var lis := View(c, z);
    assert r.eq[k] == Stored(c, z);
    if -z in c {
      assert r.eq[k] == c;
      if Proper(cfn[k]) {
        assert -z in cfn[k];
        assert z !in cfn[k];
      }
      if !r.conflict && |c| == 1 {
        assert c[0] == -z;
        IsTrueGrows(st.trail, r.trail);
      }
    } else {
      assert r.eq[k] == lis;
      if Proper(cfn[k]) {
        NoDupCounts(c);
        if z in c {
          RemoveFirstOfDistinct(c, z);
        }
      }
      if !r.conflict && |lis| == 1 {
        assert lis[0] in c;
      }
    }
  }

  /** One visit without conflict extends what has been handled by one clause. */
  lemma StepHandled(cfn: Formula, level: nat, trail0: seq<Entry>, done: nat, k: nat, st: Scan)
    requires EqInv(cfn, st.eq, st.trail) && TrailInv(level, trail0, st.trail) && k < |cfn|
    requires NoZero(cfn) && done < |st.trail|
    requires Handled(cfn, st.eq, st.trail, done, k)
    ensures var r := ClauseStep(level, -TrueLit(st.trail[done]), k, st);
            !r.conflict ==> Handled(cfn, r.eq, r.trail, done, k + 1)
  {
    var z := -TrueLit(st.trail[done]);
    EntryMakesTrue(st.trail, done);
    var r := ClauseStep(level, z, k, st);
    StepTrail(cfn, level, trail0, z, k, st);
    StoredProper(cfn, level, z, k, st);
    if !r.conflict {
      assert r.eq == st.eq[k := Stored(st.eq[k], z)];
      HandledVisit(cfn, st.eq, st.trail, r.eq, r.trail, done, k);
    }
  }

  /** The bookkeeping of `StepHandled`: clause `k` got a settled working copy
      without the falsified literal, and nothing else changed but the trail,
      which only grew. */
  lemma HandledVisit(cfn: Formula, eq: seq<Clause>, trail: seq<Entry>, eq': seq<Clause>, trail': seq<Entry>,
                     done: nat, k: nat)
    requires Handled(cfn, eq, trail, done, k) && done < |trail| && k < |cfn|
    requires trail <= trail' && |eq'| == |eq|
    requires forall j :: 0 <= j < |eq| && j != k ==> eq'[j] == eq[j]
    requires forall l :: l in eq'[k] ==> l in eq[k]
    requires Proper(cfn[k]) ==> NoDup(eq'[k]) && -TrueLit(trail[done]) !in eq'[k]
    requires Settled(eq'[k], trail')
    ensures Handled(cfn, eq', trail', done, k + 1)
  {
    IsTrueGrows(trail, trail');
    forall i | 0 <= i <= done ensures trail'[i] == trail[i] {
    }
    forall j | 0 <= j < |cfn| && (done > 0 || j < k + 1) ensures Settled(eq'[j], trail') {
      if j != k {
        assert Settled(eq[j], trail);
      }
    }
  }

  /** Handling the last clause for entry `done` completes that entry. */
  lemma HandledNext(cfn: Formula, eq: seq<Clause>, trail: seq<Entry>, done: nat)
    requires Handled(cfn, eq, trail, done, |cfn|) && done < |trail|
    ensures Handled(cfn, eq, trail, done + 1, 0)
  {
  }

  /** After every entry of a non-empty trail has been handled, no proper
      clause is falsified: its working copy is not empty, and it only holds
      literals that are not false. */
  lemma HandledNoneFalsified(cfn: Formula, eq: seq<Clause>, trail: seq<Entry>)
    requires Handled(cfn, eq, trail, |trail|, 0) && EqInv(cfn, eq, trail) && Positive(trail)
    ensures |trail| > 0 ==> NoneFalsified(cfn, trail)
  {
    forall k | 0 <= k < |cfn| && Proper(cfn[k]) && |trail| > 0
      ensures !Falsified(cfn, trail, k)
    {
      assert Settled(eq[k], trail);
      var l := eq[k][0];
      assert l in cfn[k];
      forall i | 0 <= i < |trail| ensures !Asserts(trail[i], -l) {
        AssertsIffTrueLit(trail[i], -l);
      }
    }
  }

  /** The empty trail falsifies only the empty clause. */
  lemma EmptyTrailNoneFalsified(cfn: Formula)
    requires [] !in cfn
    ensures NoneFalsified(cfn, [])
  {
    forall k | 0 <= k < |cfn| && Proper(cfn[k]) ensures !Falsified(cfn, [], k) {
      assert cfn[k] in cfn;
      var l := cfn[k][0];
      assert l in cfn[k] && !IsTrue([], -l);
    }
  }

  /** After every entry of a non-empty trail has been handled, a literal a
      proper clause forces is true: the working copy of that clause is
      reduced to that literal alone, and a settled one-literal copy is true. */
  lemma HandledPropagated(cfn: Formula, eq: seq<Clause>, trail: seq<Entry>)
    requires Handled(cfn, eq, trail, |trail|, 0) && EqInv(cfn, eq, trail) && Positive(trail)
    ensures |trail| > 0 ==> Propagated(cfn, trail)
  {
    forall k, x | 0 <= k < |cfn| && x in cfn[k] && Proper(cfn[k]) && Implied(cfn, trail, x, k) && |trail| > 0
      ensures IsTrue(trail, x)
    {
      var c := eq[k];
      assert Settled(c, trail);
      forall y | y in c ensures y in cfn[k] && !IsTrue(trail, -y) {
        forall i | 0 <= i < |trail| ensures !Asserts(trail[i], -y) {
          AssertsIffTrueLit(trail[i], -y);
        }
      }
      OneValue(c, x);
    }
  }

  // ---------------------------------------------------------------------
  // The two loops and `detect_conflict` itself.

  /** The inner loop of `detect_conflict`: visit clauses `k..` under the
      falsified literal `z`, stopping at the first conflict. */
  function ScanClauses(cfn: Formula, level: nat, ghost trail0: seq<Entry>, ghost ante0: Antecedents,
                       z: Literal, k: nat, st: Scan): (r: Scan)
    requires Inv(cfn, level, trail0, ante0, st) && !st.conflict && k <= |cfn|
    requires NoZero(cfn) && z != 0 && IsTrue(st.trail, -z)
    ensures Inv(cfn, level, trail0, ante0, r)
    ensures st.trail <= r.trail
    ensures |Open(cfn, r.trail)| <= |Open(cfn, st.trail)|
    ensures |r.trail| > |st.trail| ==> |Open(cfn, r.trail)| < |Open(cfn, st.trail)|
    decreases |cfn| - k
  {
    if k == |cfn| then st
    else
      var s := ClauseStep(level, z, k, st);
      StepInv(cfn, level, trail0, ante0, z, k, st);
      StepMeasure(cfn, level, trail0, z, k, st);
      if s.conflict then s
      else
        IsTrueGrows(st.trail, s.trail);
        ScanClauses(cfn, level, trail0, ante0, z, k + 1, s)
  }

  /** The literal an entry of a proper variable makes true is not 0, and is true. */
  lemma EntryMakesTrue(trail: seq<Entry>, pos: nat)
    requires Positive(trail) && pos < |trail|
    ensures TrueLit(trail[pos]) != 0 && IsTrue(trail, TrueLit(trail[pos]))
  {
    AssertsIffTrueLit(trail[pos], TrueLit(trail[pos]));
  }

  /** A prefix of the same length is the whole sequence. */
  lemma PrefixSameLength(s: seq<Entry>, t: seq<Entry>)
    requires s <= t
    ensures |t| == |s| ==> t == s
  {
  }

  /** The outer loop of `detect_conflict`: the trail entries from `pos` on,
      including those the scan appends while it runs. It terminates because
      every append makes one more literal of the formula true. */
  function ScanTrail(cfn: Formula, level: nat, ghost trail0: seq<Entry>, ghost ante0: Antecedents,
                     pos: nat, st: Scan): (r: Scan)
    requires Inv(cfn, level, trail0, ante0, st) && !st.conflict && pos <= |st.trail|
    requires NoZero(cfn)
    ensures Inv(cfn, level, trail0, ante0, r)
    ensures st.trail <= r.trail
    decreases |Open(cfn, st.trail)|, |st.trail| - pos
  {
    if pos == |st.trail| then st
    else
      var x := TrueLit(st.trail[pos]);
      EntryMakesTrue(st.trail, pos);
      var r := ScanClauses(cfn, level, trail0, ante0, -x, 0, st);
      if r.conflict then r
      else
        PrefixSameLength(st.trail, r.trail);
        ScanTrail(cfn, level, trail0, ante0, pos + 1, r)
  }

  /** Without a conflict, the inner loop has handled entry `done` against
      every clause. */
  lemma {:induction false} ScanClausesHandled(cfn: Formula, level: nat, trail0: seq<Entry>, ante0: Antecedents,
                                              done: nat, z: Literal, k: nat, st: Scan)
    requires Inv(cfn, level, trail0, ante0, st) && !st.conflict && k <= |cfn|
    requires NoZero(cfn) && z != 0 && IsTrue(st.trail, -z)
    requires done < |st.trail| && z == -TrueLit(st.trail[done]) && Handled(cfn, st.eq, st.trail, done, k)
    ensures var r := ScanClauses(cfn, level, trail0, ante0, z, k, st);
            !r.conflict ==> Handled(cfn, r.eq, r.trail, done, |cfn|)
    decreases |cfn| - k
  {
    if k < |cfn| {
      var s := ClauseStep(level, z, k, st);
      StepInv(cfn, level, trail0, ante0, z, k, st);
      StepTrail(cfn, level, trail0, z, k, st);
      StepHandled(cfn, level, trail0, done, k, st);
      if !s.conflict {
        IsTrueGrows(st.trail, s.trail);
        assert s.trail[done] == st.trail[done];
        ScanClausesHandled(cfn, level, trail0, ante0, done, z, k + 1, s);
      }
    }
  }

  /** Without a conflict, the outer loop has handled every entry, including
      those it appended, against every clause. */
  lemma {:induction false} ScanTrailHandled(cfn: Formula, level: nat, trail0: seq<Entry>, ante0: Antecedents,
                                            pos: nat, st: Scan)
    requires Inv(cfn, level, trail0, ante0, st) && !st.conflict && pos <= |st.trail|
    requires NoZero(cfn) && Handled(cfn, st.eq, st.trail, pos, 0)
    ensures var r := ScanTrail(cfn, level, trail0, ante0, pos, st);
            !r.conflict ==> Handled(cfn, r.eq, r.trail, |r.trail|, 0)
    decreases |Open(cfn, st.trail)|, |st.trail| - pos
  {
    if pos < |st.trail| {
      var x := TrueLit(st.trail[pos]);
      EntryMakesTrue(st.trail, pos);
      var r := ScanClauses(cfn, level, trail0, ante0, -x, 0, st);
      ScanClausesHandled(cfn, level, trail0, ante0, pos, -x, 0, st);
      if !r.conflict {
        PrefixSameLength(st.trail, r.trail);
        HandledNext(cfn, r.eq, r.trail, pos);
        ScanTrailHandled(cfn, level, trail0, ante0, pos + 1, r);
      }
    }
  }

  /** `detect_conflict` as written: propagate over a fresh copy of the
      clauses. The formula is not changed; the trail is only extended, at
      the current level; every appended literal is forced by its recorded
      antecedent clause; a reported conflict names, under key 0, a clause the
      trail falsifies completely. Without a conflict, no proper non-empty
      clause is falsified, and on a non-empty trail every forced literal is
      true. Clauses are only visited while entries are scanned, so an empty
      trail is never checked against the empty clause. */
  function DetectAsWritten(cfn: Formula, trail: seq<Entry>, ante: Antecedents, level: nat): (r: Detection)
    requires NoZero(cfn) && Positive(trail)
    ensures trail <= r.trail && Positive(r.trail)
    ensures forall i :: |trail| <= i < |r.trail| ==> r.trail[i].level == level
    ensures forall i :: |trail| <= i < |r.trail| ==>
              TrueLit(r.trail[i]) in r.ante && Implied(cfn, r.trail, TrueLit(r.trail[i]), r.ante[TrueLit(r.trail[i])])
    ensures forall x :: x in r.ante && x != 0 ==> (x in ante && r.ante[x] == ante[x]) || Implied(cfn, r.trail, x, r.ante[x])
    ensures forall x :: x in ante ==> x in r.ante
    ensures r.conflict ==> 0 in r.ante && Falsified(cfn, r.trail, r.ante[0])
    ensures !r.conflict ==> (0 in r.ante <==> 0 in ante) && (0 in ante ==> r.ante[0] == ante[0])
    ensures !r.conflict && |trail| > 0 ==> NoneFalsified(cfn, r.trail) && Propagated(cfn, r.trail)
    ensures |trail| == 0 ==> r == Detection(false, trail, ante)
  {
    var st := Scan(trail, ante, cfn, false);
    var s := ScanTrail(cfn, level, trail, ante, 0, st);
    ScanTrailHandled(cfn, level, trail, ante, 0, st);
    if s.conflict then Detection(true, s.trail, s.ante)
    else
      HandledNoneFalsified(cfn, s.eq, s.trail);
      HandledPropagated(cfn, s.eq, s.trail);
      Detection(false, s.trail, s.ante)
  }

  /** `detect_conflict` with the empty clause checked when the trail is
      empty, so that a conflict is reported exactly when propagation leaves
      a proper clause falsified. Everything else is the scan as written. */
  function DetectConflict(cfn: Formula, trail: seq<Entry>, ante: Antecedents, level: nat): (r: Detection)
    requires NoZero(cfn) && Positive(trail)
    ensures trail <= r.trail && Positive(r.trail)
    ensures forall i :: |trail| <= i < |r.trail| ==> r.trail[i].level == level
    ensures forall i :: |trail| <= i < |r.trail| ==>
              TrueLit(r.trail[i]) in r.ante && Implied(cfn, r.trail, TrueLit(r.trail[i]), r.ante[TrueLit(r.trail[i])])
    ensures forall x :: x in r.ante && x != 0 ==> (x in ante && r.ante[x] == ante[x]) || Implied(cfn, r.trail, x, r.ante[x])
    ensures forall x :: x in ante ==> x in r.ante
    ensures r.conflict ==> 0 in r.ante && Falsified(cfn, r.trail, r.ante[0])
    ensures !r.conflict ==> (0 in r.ante <==> 0 in ante) && (0 in ante ==> r.ante[0] == ante[0])
    ensures !r.conflict ==> NoneFalsified(cfn, r.trail)
    ensures !r.conflict && |r.trail| > 0 ==> Propagated(cfn, r.trail)
  {
    if |trail| == 0 && [] in cfn then
      Detection(true, trail, ante[0 := IndexOf(cfn, [])])
    else
      var r := DetectAsWritten(cfn, trail, ante, level);
      if |trail| == 0 then EmptyTrailNoneFalsified(cfn); r else r
  }
}
