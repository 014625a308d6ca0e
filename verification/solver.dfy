/** The driver `solve`: unit clauses and root simplification first, then the
    decide / propagate / analyse / backjump loop until every variable has a
    value or a conflict at level 0 shows the formula unsatisfiable. */
module Solver {
  import opened Seqs
  import opened Cnf
  import opened Assignment
  import opened Simplify
  import opened Propagation
  import opened Analysis
  import opened Backjump
  import opened Heuristic

  /** The attributes of the solver object that the search reads and writes. */
  datatype State = State(cfn: Formula, trail: seq<Entry>, ante: Antecedents, vars: seq<int>, level: nat, scores: Scores)

  /** What `solve` returns: SAT with the antecedent map (whose keys are the
      true literals), UNSAT, or, in the model only, an exception the source
      would raise or the fuel bound. */
  datatype Outcome = Sat(model: Antecedents) | Unsat | Raised | OutOfFuel

  /** No trail entry is above the current decision level. */
  predicate LevelsUpTo(trail: seq<Entry>, level: nat) {
    forall i :: 0 <= i < |trail| ==> trail[i].level <= level
  }

  /** What the search keeps true of the state for a formula over variables 1..n. */
  predicate Good(st: State, n: nat) {
    && NoZero(st.cfn) && FormulaWithinVars(st.cfn, n)
    && VarsWithin(st.trail, n) && LevelsUpTo(st.trail, st.level)
    && Sized(st.scores, n)
    && StrictlySorted(st.vars) && (forall j :: 0 <= j < |st.vars| ==> 1 <= st.vars[j] <= n)
  }

  /** A conflict that depends on level 0 alone: key 0 names a clause the
      trail falsifies, and every trail entry of its variables is at level 0. */
  ghost predicate RootConflict(st: State) {
    && 0 in st.ante && Falsified(st.cfn, st.trail, st.ante[0])
    && forall l, b :: l in st.cfn[st.ante[0]] && OnTrail(st.trail, l, b) ==> st.trail[b].level == 0
  }

  /** A formula within the variable bound mentions no literal 0. */
  lemma WithinNoZero(cfn: Formula, n: nat)
    requires FormulaWithinVars(cfn, n)
    ensures NoZero(cfn)
  {
    forall k | 0 <= k < |cfn| ensures 0 !in cfn[k] {
      assert WithinVars(cfn[k], n);
    }
  }

  /** Appending the learned clause unless the formula already holds it. */
  function AddLearnt(cfn: Formula, c: Clause): (r: Formula)
    ensures cfn <= r && c in r
    ensures |r| <= |cfn| + 1
    ensures c in cfn ==> r == cfn
  {
    if c !in cfn then cfn + [c] else cfn
  }

  /** Propagation only adds entries for literals of the formula, so the
      variable bound of the trail survives it; they sit at the current level. */
  lemma DetectWithin(st: State, n: nat)
    requires Good(st, n)
    ensures Positive(st.trail)
    ensures var d := DetectConflict(st.cfn, st.trail, st.ante, st.level);
            VarsWithin(d.trail, n) && LevelsUpTo(d.trail, st.level)
  {
    var d := DetectConflict(st.cfn, st.trail, st.ante, st.level);
    forall i | 0 <= i < |d.trail| ensures 1 <= d.trail[i].variable <= n && d.trail[i].level <= st.level {
      if i < |st.trail| {
        assert d.trail[i] == st.trail[i];
      } else {
        var x := TrueLit(d.trail[i]);
        var k := d.ante[x];
        assert Implied(st.cfn, d.trail, x, k);
        assert WithinVars(st.cfn[k], n);
      }
    }
  }

  /** The decision is a fresh variable whenever some unassigned variable
      has a score that is not negative. */
  lemma DecideFresh(st: State, n: nat)
    requires Good(st, n) && n > 0
    ensures (exists u :: 1 <= u <= n && u !in st.vars && st.scores.freq[u - 1] >= 0.0) ==>
              Decide(st.scores, st.vars).variable !in st.vars
  {
    var s, vars := st.scores, st.vars;
    assert |s.freq| == n && Sized(s, n);
    assert forall j :: 0 <= j < |vars| ==> 1 <= vars[j] <= n;
    if exists u :: 1 <= u <= n && u !in vars && s.freq[u - 1] >= 0.0 {
      var u :| 1 <= u <= n && u !in vars && s.freq[u - 1] >= 0.0;
      DecidePicksUnassigned(s, vars, u);
    }
  }

  /** Pushing an entry of a proper variable at the next level keeps the
      trail within the variable bound and the levels. */
  lemma PushWithin(trail: seq<Entry>, e: Entry, n: nat, level: nat)
    requires VarsWithin(trail, n) && LevelsUpTo(trail, level)
    requires 1 <= e.variable <= n && e.level == level + 1
    ensures VarsWithin(trail + [e], n) && LevelsUpTo(trail + [e], level + 1)
  {
    forall i | 0 <= i < |trail| ensures (trail + [e])[i] == trail[i] {
    }
  }

  /** `preprocess`: open a new decision level, decide, and push the decision
      with the `Given` antecedent. */
  function Preprocess(st: State, n: nat): (r: State)
    requires Good(st, n) && n > 0
    ensures Good(r, n)
    ensures r.level == st.level + 1 && r.cfn == st.cfn && r.vars == st.vars
    ensures |r.trail| == |st.trail| + 1 && st.trail <= r.trail
    ensures var e := r.trail[|st.trail|];
            && e.level == r.level && 1 <= e.variable <= n
            && (e.value <==> st.scores.polar[e.variable - 1] > 0)
            && TrueLit(e) in r.ante && r.ante[TrueLit(e)] == Given
            && ((exists u :: 1 <= u <= n && u !in st.vars && st.scores.freq[u - 1] >= 0.0) ==> e.variable !in st.vars)
    ensures var ch := Decide(st.scores, st.vars);
            r.trail[|st.trail|] == Entry(ch.variable, ch.sign, st.level + 1) && r.scores == ch.scores
    ensures forall k :: k != TrueLit(r.trail[|st.trail|]) ==>
              (k in r.ante <==> k in st.ante) && (k in st.ante ==> r.ante[k] == st.ante[k])
  {
    var ch := Decide(st.scores, st.vars);
    DecideFresh(st, n);
    var e := Entry(ch.variable, ch.sign, st.level + 1);
    DecisionGood(st, n, e, ch.scores);
    State(st.cfn, st.trail + [e], st.ante[TrueLit(e) := Given], st.vars, st.level + 1, ch.scores)
  }

  /** The state after pushing a decision of a proper variable at the next
      level, with scores of the right size, is still a good state. */
  lemma DecisionGood(st: State, n: nat, e: Entry, sc: Scores)
    requires Good(st, n) && Sized(sc, n)
    requires 1 <= e.variable <= n && e.level == st.level + 1
    ensures Good(State(st.cfn, st.trail + [e], st.ante[TrueLit(e) := Given], st.vars, st.level + 1, sc), n)
  {
    PushWithin(st.trail, e, n, st.level);
  }

  /** The learned clause keeps the formula within the variable bound. */
  lemma AddLearntWithin(cfn: Formula, c: Clause, n: nat)
    requires FormulaWithinVars(cfn, n) && WithinVars(c, n)
    ensures FormulaWithinVars(AddLearnt(cfn, c), n) && NoZero(AddLearnt(cfn, c))
  {
    var r := AddLearnt(cfn, c);
    forall k | 0 <= k < |r| ensures WithinVars(r[k], n) {
      if k < |cfn| { assert r[k] == cfn[k]; }
    }
    WithinNoZero(r, n);
  }

  /** Asserting a unit learned clause at level 0 keeps the trail within the
      variable bound and below the decision level. */
  lemma UnitWithin(trail: seq<Entry>, ante: Antecedents, c: Clause, n: nat, level: nat)
    requires VarsWithin(trail, n) && LevelsUpTo(trail, level) && WithinVars(c, n)
    ensures VarsWithin(AddUnary(Roots(trail, ante), c).trail, n)
    ensures LevelsUpTo(AddUnary(Roots(trail, ante), c).trail, level)
  {
    var r := AddUnary(Roots(trail, ante), c).trail;
    if |c| == 1 {
      assert c[0] in c;
      assert r[|trail|].variable == Abs(TrueLit(r[|trail|]));
    }
    forall i | 0 <= i < |trail| ensures r[i] == trail[i] {
    }
  }

  /** The backtracked trail keeps the variable bound. */
  lemma BelowWithin(trail: seq<Entry>, b: nat, n: nat)
    requires VarsWithin(trail, n)
    ensures VarsWithin(Below(trail, b), n)
  {
    var r := Below(trail, b);
    forall i | 0 <= i < |r| ensures 1 <= r[i].variable <= n {
      assert r[i] in r;
    }
  }

  /** The trail and antecedents after backjumping to `b` and asserting a
      unit learned clause at level 0. */
  function Jump(st: State, n: nat, b: nat, learnt: Clause): (r: Roots)
    requires Good(st, n) && 0 in st.ante && WithinVars(learnt, n)
    ensures VarsWithin(r.trail, n) && LevelsUpTo(r.trail, b)
    ensures Below(st.trail, b) <= r.trail && |r.trail| <= |Below(st.trail, b)| + 1
    ensures |learnt| == 1 ==> r.trail == Below(st.trail, b) + [EntryFor(learnt[0], 0)] &&
                              learnt[0] in r.ante && r.ante[learnt[0]] == Given
    ensures |learnt| != 1 ==> r.trail == Below(st.trail, b)
    ensures forall k :: (|learnt| != 1 || k != learnt[0]) ==>
              (k in r.ante <==> k in st.ante && k != 0 && !RemovedLit(st.trail, b, k)) &&
              (k in r.ante ==> r.ante[k] == st.ante[k])
  {
    var (lvl, bj) := Backtrack(Backjumped(st.trail, st.ante, st.scores.freq), st.scores.orig, b);
    BelowWithin(st.trail, b, n);
    UnitWithin(bj.trail, bj.ante, learnt, n, lvl);
    AddUnary(Roots(bj.trail, bj.ante), learnt)
  }

  /** The scores after backjumping to `b` (variables taken off the trail get
      their original scores back) and scoring the learned clause. */
  function Rescore(st: State, n: nat, b: nat, learnt: Clause): (r: (seq<real>, seq<int>))
    requires Good(st, n) && 0 in st.ante && WithinVars(learnt, n)
    ensures |r.0| == n && |r.1| == n
    ensures forall i :: 0 <= i < n ==>
              r.0[i] == (if RemovedVar(st.trail, b, i + 1) then st.scores.orig[i] else st.scores.freq[i])
                        + (Count(learnt, i + 1) + Count(learnt, -(i + 1))) as real
    ensures forall i :: 0 <= i < n ==>
              r.1[i] == st.scores.polar[i] + Count(learnt, i + 1) - Count(learnt, -(i + 1))
  {
    var (lvl, bj) := Backtrack(Backjumped(st.trail, st.ante, st.scores.freq), st.scores.orig, b);
    UpdateFreqPolar(bj.freq, st.scores.polar, learnt)
  }

  /** After a learned clause with backtrack level `b`: record the clause,
      backjump to `b`, assert the clause at level 0 when it is a unit, and
      score it. */
  function Learn(st: State, n: nat, b: nat, learnt: Clause): (r: State)
    requires Good(st, n) && 0 in st.ante && WithinVars(learnt, n)
    ensures Good(r, n)
    ensures r.level == b && r.cfn == AddLearnt(st.cfn, learnt) && r.vars == st.vars
    ensures Below(st.trail, b) <= r.trail && |r.trail| <= |Below(st.trail, b)| + 1
    ensures r.scores.conflicts == st.scores.conflicts && r.scores.orig == st.scores.orig
  {
    var cfn := AddLearnt(st.cfn, learnt);
    AddLearntWithin(st.cfn, learnt, n);
    var roots := Jump(st, n, b, learnt);
    var (freq, polar) := Rescore(st, n, b, learnt);
    State(cfn, roots.trail, roots.ante, st.vars, b, Scores(freq, polar, st.scores.orig, st.scores.conflicts))
  }

  /** What learning does to the trail, the antecedents and the scores: the
      trail keeps what lies below `b` and gains the level-0 entry of a unit
      learned clause; key 0 and the literals of removed entries lose their
      antecedents; removed variables get their original scores back before
      the learned clause is scored. */
  lemma LearnEffect(st: State, n: nat, b: nat, learnt: Clause)
    requires Good(st, n) && 0 in st.ante && WithinVars(learnt, n)
    ensures var r := Learn(st, n, b, learnt);
      && (|learnt| == 1 ==> r.trail == Below(st.trail, b) + [EntryFor(learnt[0], 0)] &&
                            learnt[0] in r.ante && r.ante[learnt[0]] == Given)
      && (|learnt| != 1 ==> r.trail == Below(st.trail, b))
      && (forall k :: (|learnt| != 1 || k != learnt[0]) ==>
            (k in r.ante <==> k in st.ante && k != 0 && !RemovedLit(st.trail, b, k)) &&
            (k in r.ante ==> r.ante[k] == st.ante[k]))
      && (forall i :: 0 <= i < n ==>
            r.scores.freq[i] == (if RemovedVar(st.trail, b, i + 1) then st.scores.orig[i] else st.scores.freq[i])
                                + (Count(learnt, i + 1) + Count(learnt, -(i + 1))) as real)
      && (forall i :: 0 <= i < n ==>
            r.scores.polar[i] == st.scores.polar[i] + Count(learnt, i + 1) - Count(learnt, -(i + 1)))
  {
    var roots := Jump(st, n, b, learnt);
    var sc := Rescore(st, n, b, learnt);
    assert Learn(st, n, b, learnt).trail == roots.trail && Learn(st, n, b, learnt).ante == roots.ante;
    assert Learn(st, n, b, learnt).scores.freq == sc.0 && Learn(st, n, b, learnt).scores.polar == sc.1;
  }

  /** An analysis that returns level -1 found the conflicting clause
      falsified by level-0 entries alone. */
  lemma RootFromAnalysis(st: State, fuel: nat)
    requires 0 in st.ante && Falsified(st.cfn, st.trail, st.ante[0])
    requires AnalyzeConflict(st.cfn, st.trail, st.ante, fuel).Learned?
    requires AnalyzeConflict(st.cfn, st.trail, st.ante, fuel).level < 0
    ensures RootConflict(st.(cfn := AddLearnt(st.cfn, [])))
  {
    var k := st.ante[0];
    var cfn := AddLearnt(st.cfn, []);
    assert cfn[k] == st.cfn[k];
    assert PyAt(st.cfn, k) == st.cfn[k];
    forall l | l in st.cfn[k] ensures IsTrue(st.trail, -l) {
    }
  }

  /** One round of the inner loop of `solve` after a conflict: count it,
      analyse it, record the learned clause, and either stop (UNSAT at level
      0, or an exception) or backjump. */
  datatype Step = Next(st: State) | Halt(out: Outcome, st: State)

  function ConflictStep(st: State, n: nat, fuel: nat): (r: Step)
    requires Good(st, n) && 0 in st.ante && Falsified(st.cfn, st.trail, st.ante[0])
    ensures r.Next? ==> Good(r.st, n)
    ensures r.Halt? ==> !r.out.Sat?
    ensures r.Halt? && r.out == Unsat ==> RootConflict(r.st)
    ensures r.Halt? ==> r.st.trail == st.trail
    ensures st.cfn <= r.st.cfn && |r.st.cfn| <= |st.cfn| + 1
    ensures r.st.scores.conflicts == st.scores.conflicts + 1
    ensures var a := AnalyzeConflict(st.cfn, st.trail, st.ante, fuel);
            && (r.Halt? && r.out == Unsat <==> a == Learned(-1, []))
            && (r.Halt? && r.out == Raised <==> a.Failed?)
            && (r.Halt? && r.out == OutOfFuel <==> a.Exhausted?)
            && (r.Next? ==> a.Learned? && r.st.level == a.level && r.st.cfn == AddLearnt(st.cfn, a.clause))
  {
    var counted := st.(scores := st.scores.(conflicts := st.scores.conflicts + 1));
    var a := AnalyzeConflict(st.cfn, st.trail, st.ante, fuel);
    if a.Failed? then Halt(Outcome.Raised, counted)
    else if a.Exhausted? then Halt(Outcome.OutOfFuel, counted)
    else if a.level < 0 then
      RootFromAnalysis(st, fuel);
      Halt(Unsat, counted.(cfn := AddLearnt(st.cfn, a.clause)))
    else
      LitsWithinVars(st.cfn, n);
      assert WithinVars(a.clause, n);
      Next(Learn(counted, n, a.level, a.clause))
  }

  /** A strictly increasing list of variables from 1..n has at most n elements. */
  lemma SortedBound(vars: seq<int>, n: nat)
    requires StrictlySorted(vars)
    requires forall j :: 0 <= j < |vars| ==> 1 <= vars[j] <= n
    ensures |vars| <= n
  {
    SortedGrows(vars);
    if |vars| > 0 {
      assert vars[|vars| - 1] >= |vars|;
    }
  }

  lemma {:induction false} SortedGrows(vars: seq<int>)
    requires StrictlySorted(vars)
    requires forall j :: 0 <= j < |vars| ==> 1 <= vars[j]
    ensures forall j :: 0 <= j < |vars| ==> vars[j] >= j + 1
    decreases |vars|
  {
    if |vars| > 0 {
      var p := vars[..|vars| - 1];
      assert forall j :: 0 <= j < |p| ==> p[j] == vars[j];
      SortedGrows(p);
      if |vars| > 1 {
        assert vars[|vars| - 1] > vars[|vars| - 2];
      }
    }
  }

  /** The set-up of `solve` before the search: unit clauses on the trail,
      `pre_del`, and the scores of the remaining formula (the original
      scores are a copy of them). */
  function Setup(cfn0: Formula, n: nat): (st: State)
    requires FormulaWithinVars(cfn0, n)
    ensures Good(st, n) && st.level == 0 && st.vars == []
    ensures st.cfn == PreDel(AddUnits(cfn0).trail, cfn0)
    ensures st.trail == AddUnits(cfn0).trail && st.ante == AddUnits(cfn0).ante
    ensures st.scores.conflicts == 0 && st.scores.orig == st.scores.freq
    ensures forall i :: 0 <= i < n ==>
              st.scores.freq[i] == (Occurrences(st.cfn, i + 1) + Occurrences(st.cfn, -(i + 1))) as real
    ensures forall i :: 0 <= i < n ==>
              st.scores.polar[i] == Occurrences(st.cfn, i + 1) - Occurrences(st.cfn, -(i + 1))
  {
    var roots := AddUnits(cfn0);
    var cfn := PreDel(roots.trail, cfn0);
    SetupWithin(cfn0, n);
    State(cfn, roots.trail, roots.ante, [], 0, InitialScores(cfn, n))
  }

  /** The scores `solve` starts the search with: the tables start at 0 and
      every clause is scored; the original scores are a copy, and no
      conflict has been counted. */
  function InitialScores(cfn: Formula, n: nat): (r: Scores)
    requires FormulaWithinVars(cfn, n)
    ensures Sized(r, n) && r.conflicts == 0 && r.orig == r.freq
    ensures forall i :: 0 <= i < n ==> r.freq[i] == (Occurrences(cfn, i + 1) + Occurrences(cfn, -(i + 1))) as real
    ensures forall i :: 0 <= i < n ==> r.polar[i] == Occurrences(cfn, i + 1) - Occurrences(cfn, -(i + 1))
  {
    var (freq, polar) := ScoreFormula(seq(n, i => 0.0), seq(n, i => 0), cfn);
    Scores(freq, polar, freq, 0)
  }

  /** The unit facts respect the variable bound and sit at level 0. */
  lemma SetupWithin(cfn0: Formula, n: nat)
    requires FormulaWithinVars(cfn0, n)
    ensures VarsWithin(AddUnits(cfn0).trail, n) && LevelsUpTo(AddUnits(cfn0).trail, 0)
    ensures FormulaWithinVars(PreDel(AddUnits(cfn0).trail, cfn0), n)
    ensures NoZero(PreDel(AddUnits(cfn0).trail, cfn0))
  {
    UnitsWithin(cfn0, n);
    SubFormulaWithin(cfn0, PreDel(AddUnits(cfn0).trail, cfn0), n);
  }

  lemma UnitsWithin(cfn0: Formula, n: nat)
    requires FormulaWithinVars(cfn0, n)
    ensures VarsWithin(AddUnits(cfn0).trail, n)
  {
    var trail := AddUnits(cfn0).trail;
    forall i | 0 <= i < |trail| ensures 1 <= trail[i].variable <= n {
      var x := TrueLit(trail[i]);
      assert [x] in cfn0;
      var k :| 0 <= k < |cfn0| && cfn0[k] == [x];
      assert WithinVars(cfn0[k], n) && x in cfn0[k];
    }
  }

  /** Clauses taken from a formula within the bound are within it. */
  lemma SubFormulaWithin(cfn0: Formula, cfn: Formula, n: nat)
    requires FormulaWithinVars(cfn0, n)
    requires forall c :: c in cfn ==> c in cfn0
    ensures FormulaWithinVars(cfn, n) && NoZero(cfn)
  {
    forall k | 0 <= k < |cfn| ensures WithinVars(cfn[k], n) {
      assert cfn[k] in cfn;
      var j :| 0 <= j < |cfn0| && cfn0[j] == cfn[k];
    }
    WithinNoZero(cfn, n);
  }

  /** What propagation without a conflict leaves: no proper clause is
      falsified, and on a non-empty trail every literal a proper clause
      forces is true. */
  predicate Quiescent(st: State) {
    NoneFalsified(st.cfn, st.trail) && (|st.trail| > 0 ==> Propagated(st.cfn, st.trail))
  }

  /** `detect_conflict` on the state: the trail and antecedent map it leaves,
      and whether it stopped on a conflict. */
  function Propagate(st: State, n: nat): (r: (bool, State))
    requires Good(st, n)
    ensures Good(r.1, n)
    ensures r.1.cfn == st.cfn && r.1.vars == st.vars && r.1.level == st.level && r.1.scores == st.scores
    ensures st.trail <= r.1.trail
    ensures r.0 ==> 0 in r.1.ante && Falsified(r.1.cfn, r.1.trail, r.1.ante[0])
    ensures !r.0 ==> Quiescent(r.1)
  {
    DetectWithin(st, n);
    var d := DetectConflict(st.cfn, st.trail, st.ante, st.level);
    (d.conflict, st.(trail := d.trail, ante := d.ante))
  }

  /** With the scan as written, `solve` on the formula `[[]]` over no
      variables keeps the empty clause, finds no conflict, and counts all of
      its zero variables as assigned: the search loop never runs and the
      answer is SAT, although no assignment satisfies the empty clause. */
  lemma EmptyClauseAsWritten()
    ensures Setup([[]], 0).cfn == [[]] && Setup([[]], 0).trail == []
    ensures !DetectAsWritten(Setup([[]], 0).cfn, Setup([[]], 0).trail, Setup([[]], 0).ante, 0).conflict
    ensures Setup([[]], 0).vars == Total(0)
    ensures !NoneFalsified([[]], [])
  {
    EmptyClauseFalsified([[]], []);
  }

  /** A conflict found before any decision is a root conflict. */
  lemma RootAtStart(st: State, n: nat)
    requires Good(st, n) && st.level == 0
    requires 0 in st.ante && Falsified(st.cfn, st.trail, st.ante[0])
    ensures RootConflict(st)
  {
  }

  /** Recomputing the variable list keeps the state good. */
  function WithVariables(st: State, n: nat): (r: State)
    requires Good(st, n)
    ensures Good(r, n) && r == st.(vars := UpdateVariables(st.trail))
  {
    var vars := UpdateVariables(st.trail);
    forall j | 0 <= j < |vars| ensures 1 <= vars[j] <= n {
      assert vars[j] in vars;
      var i :| 0 <= i < |st.trail| && st.trail[i].variable == vars[j];
    }
    st.(vars := vars)
  }

  /** When the sorted variable list equals `total`, every variable 1..n, and
      only those, is on the trail. */
  lemma ExitAssigned(st: State, n: nat)
    requires Good(st, n) && st.vars == Total(n)
    requires st.vars == [] || st.vars == UpdateVariables(st.trail)
    ensures forall v :: Assigned(st.trail, v) <==> 1 <= v <= n
  {
    forall v | Assigned(st.trail, v) ensures 1 <= v <= n {
      var i :| 0 <= i < |st.trail| && st.trail[i].variable == v;
    }
    if st.vars == [] {
      assert |Total(n)| == n;
    } else {
      AllAssigned(st.trail, n);
    }
  }

  /** Where a round of the search leaves the solver: still going, with the
      fuel left, or done with an outcome. */
  datatype Round = Going(st: State, fuel: nat) | Done(out: Outcome, st: State)

  /** The inner loop of `solve`: while propagation ends in a conflict,
      analyse it and backjump. */
  method Conflicts(st0: State, n: nat, f0: nat, conflict0: bool) returns (r: Round)
    requires Good(st0, n)
    requires conflict0 ==> 0 in st0.ante && Falsified(st0.cfn, st0.trail, st0.ante[0])
    requires !conflict0 ==> Quiescent(st0)
    ensures r.Going? ==> Good(r.st, n) && r.fuel <= f0 && Quiescent(r.st)
    ensures r.Done? ==> !r.out.Sat? && VarsWithin(r.st.trail, n)
    ensures r.Done? && r.out == Unsat ==> RootConflict(r.st)
  {
    var st := st0;
    var conflict := conflict0;
    var f: nat := f0;
    while conflict
      invariant Good(st, n) && f <= f0
      invariant conflict ==> 0 in st.ante && Falsified(st.cfn, st.trail, st.ante[0])
      invariant !conflict ==> Quiescent(st)
      decreases f
    {
      if f == 0 {
        return Done(Outcome.OutOfFuel, st);
      }
      f := f - 1;
      var step := ConflictStep(st, n, f);
      if step.Halt? {
        return Done(step.out, step.st);
      }
      var p := Propagate(step.st, n);
      conflict := p.0;
      st := p.1;
    }
    return Going(st, f);
  }

  /** One round of the outer loop of `solve`: decide, propagate, resolve
      the conflicts, and recompute the sorted variable list. */
  method SearchRound(st: State, n: nat, f: nat) returns (r: Round)
    requires Good(st, n) && st.vars != Total(n)
    ensures r.Going? ==> Good(r.st, n) && r.fuel < f && r.st.vars == UpdateVariables(r.st.trail)
    ensures r.Going? ==> Quiescent(r.st)
    ensures r.Done? ==> !r.out.Sat? && VarsWithin(r.st.trail, n)
    ensures r.Done? && r.out == Unsat ==> RootConflict(r.st)
  {
    if f == 0 {
      return Done(Outcome.OutOfFuel, st);
    }
    SortedBound(st.vars, n);
    var decided := Preprocess(st, n);
    var p := Propagate(decided, n);
    r := Conflicts(p.1, n, f - 1, p.0);
    if r.Going? {
      r := Going(WithVariables(r.st, n), r.fuel);
    }
  }

  /** `solve`. Loops run under a fuel bound: each decision and each conflict
      costs one unit, and the analysis loop gets what is left. */
  method Solve(cfn0: Formula, n: nat, fuel: nat) returns (out: Outcome, st: State)
    requires FormulaWithinVars(cfn0, n)
    ensures PreDel(AddUnits(cfn0).trail, cfn0) == [] ==> out == Sat(map[])
    ensures out.Sat? && PreDel(AddUnits(cfn0).trail, cfn0) != [] ==>
              out.model == st.ante && forall v :: Assigned(st.trail, v) <==> 1 <= v <= n
    ensures out.Sat? && PreDel(AddUnits(cfn0).trail, cfn0) != [] ==> Quiescent(st)
    ensures Setup(cfn0, n).cfn != [] && Propagate(Setup(cfn0, n), n).0 ==> out == Unsat
    ensures [] in PreDel(AddUnits(cfn0).trail, cfn0) ==> out == Unsat
    ensures out == Unsat ==> RootConflict(st)
    ensures VarsWithin(st.trail, n)
  {
    st := Setup(cfn0, n);
    if |st.cfn| == 0 {
      return Sat(map[]), st;
    }
    var p := Propagate(st, n);
    st := p.1;
    if p.0 {
      RootAtStart(st, n);
      return Unsat, st;
    }
    EmptyClauseFalsified(st.cfn, st.trail);
    var f: nat := fuel;
    while st.vars != Total(n)
      invariant Good(st, n) && Quiescent(st)
      invariant st.vars == [] || st.vars == UpdateVariables(st.trail)
      decreases f
    {
      var r := SearchRound(st, n, f);
      if r.Done? {
        return r.out, r.st;
      }
      st, f := r.st, r.fuel;
    }
    ExitAssigned(st, n);
    out := Sat(st.ante);
  }
}
