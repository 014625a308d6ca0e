/** First-UIP conflict analysis (`analise_conflict`, `find_conflict_lvl`,
    `find_assert_lvl`, `find_uip`).

    The loops of the source run over a clause and, for each literal, over the
    whole trail; every trail entry of the literal's variable is looked at,
    whatever its value, so a variable with two entries counts twice. The
    functions below recurse on prefixes, so that "the state after the first
    n iterations" is the value on the first n elements. */
module Analysis {
  import opened Seqs
  import opened Cnf
  import opened Assignment
  import opened Resolution

  /** Python indexing of the formula: a negative index counts from the end. */
  function PyAt(cfn: Formula, i: int): (c: Clause)
    requires -|cfn| <= i < |cfn|
    ensures c in cfn
  {
    if i < 0 then cfn[i + |cfn|] else cfn[i]
  }

  /** Trail entry `b` holds the variable of literal `l`. */
  predicate OnTrail(trail: seq<Entry>, l: Literal, b: int) {
    0 <= b < |trail| && trail[b].variable == Abs(l)
  }

  /** Trail entry `b` holds the variable of literal `l` at level `lvl`. */
  predicate HitAt(trail: seq<Entry>, l: Literal, lvl: nat, b: int) {
    OnTrail(trail, l, b) && trail[b].level == lvl
  }

  /** Some trail entry holds the variable of `l` at level `lvl`. */
  predicate AtLevel(trail: seq<Entry>, l: Literal, lvl: nat) {
    exists b :: 0 <= b < |trail| && HitAt(trail, l, lvl, b)
  }

  /** The inner loop of `find_conflict_lvl` for one literal, over a trail prefix. */
  function MaxLevelFor(l: Literal, trail: seq<Entry>, acc: nat): (r: nat)
    ensures acc <= r
    ensures forall b :: OnTrail(trail, l, b) ==> trail[b].level <= r
    ensures r == acc || exists b :: OnTrail(trail, l, b) && trail[b].level == r
    decreases |trail|
  {
    if |trail| == 0 then acc
    else
      var p := trail[..|trail| - 1];
      var e := trail[|trail| - 1];
      var m := MaxLevelFor(l, p, acc);
      assert forall b :: OnTrail(p, l, b) ==> OnTrail(trail, l, b) && p[b] == trail[b];
      if e.variable == Abs(l) && m < e.level then e.level else m
  }

  /** `find_conflict_lvl`: the highest level at which the trail holds a
      variable of the clause, or 0 when it holds none. */
  function FindConflictLvl(c: Clause, trail: seq<Entry>): (r: nat)
    ensures forall l, b :: l in c && OnTrail(trail, l, b) ==> trail[b].level <= r
    ensures r == 0 || exists l, b :: l in c && OnTrail(trail, l, b) && trail[b].level == r
    decreases |c|
  {
    if |c| == 0 then 0
    else
      var p := c[..|c| - 1];
      var m := FindConflictLvl(p, trail);
      assert forall l :: l in c <==> l in p || l == c[|c| - 1] by {
        assert c == p + [c[|c| - 1]];
      }
      MaxLevelFor(c[|c| - 1], trail, m)
  }

  /** The inner loop of `find_assert_lvl` for one literal: levels strictly
      below `conf` raise the accumulator. */
  function AssertLevelFor(l: Literal, trail: seq<Entry>, conf: nat, acc: nat): (r: nat)
    ensures acc <= r && (acc < conf ==> r < conf)
    ensures forall b :: OnTrail(trail, l, b) && trail[b].level < conf ==> trail[b].level <= r
    ensures r == acc || exists b :: OnTrail(trail, l, b) && trail[b].level == r
    decreases |trail|
  {
    if |trail| == 0 then acc
    else
      var p := trail[..|trail| - 1];
      var e := trail[|trail| - 1];
      var m := AssertLevelFor(l, p, conf, acc);
      assert forall b :: OnTrail(p, l, b) ==> OnTrail(trail, l, b) && p[b] == trail[b];
      if e.variable == Abs(l) && conf > e.level > m then e.level else m
  }

  /** `find_assert_lvl`: the highest level strictly below `conf` at which the
      trail holds a variable of the clause, or 0 when there is none. */
  function FindAssertLvl(c: Clause, trail: seq<Entry>, conf: nat): (r: nat)
    ensures conf > 0 ==> r < conf
    ensures forall l, b :: l in c && OnTrail(trail, l, b) && trail[b].level < conf ==> trail[b].level <= r
    ensures r == 0 || exists l, b :: l in c && OnTrail(trail, l, b) && trail[b].level == r
    decreases |c|
  {
    if |c| == 0 then 0
    else
      var p := c[..|c| - 1];
      var m := FindAssertLvl(p, trail, conf);
      assert forall l :: l in c <==> l in p || l == c[|c| - 1] by {
        assert c == p + [c[|c| - 1]];
      }
      AssertLevelFor(c[|c| - 1], trail, conf, m)
  }

  /** How many trail entries hold the variable of `l` at level `lvl`. */
  function Hits(l: Literal, trail: seq<Entry>, lvl: nat): (r: nat)
    ensures r == 0 <==> !AtLevel(trail, l, lvl)
    ensures r == 1 <==> exists b :: HitAt(trail, l, lvl, b) && forall b' :: HitAt(trail, l, lvl, b') ==> b' == b
    decreases |trail|
  {
    if |trail| == 0 then 0
    else
      var p := trail[..|trail| - 1];
      var last := |trail| - 1;
      var h := Hits(l, p, lvl);
      assert forall b :: HitAt(trail, l, lvl, b) <==> HitAt(p, l, lvl, b) || (b == last && HitAt(trail, l, lvl, last)) by {
        forall b ensures HitAt(trail, l, lvl, b) <==> HitAt(p, l, lvl, b) || (b == last && HitAt(trail, l, lvl, last)) {
          if 0 <= b < last { assert p[b] == trail[b]; }
        }
      }
      h + (if HitAt(trail, l, lvl, last) then 1 else 0)
  }

  /** A (clause position, trail entry) pair counted by `find_uip`. */
  predicate Pair(c: Clause, trail: seq<Entry>, lvl: nat, a: int, b: int) {
    0 <= a < |c| && HitAt(trail, c[a], lvl, b)
  }

  ghost predicate NoPair(c: Clause, trail: seq<Entry>, lvl: nat) {
    forall a, b :: !Pair(c, trail, lvl, a, b)
  }

  /** Exactly one (literal, entry) pair sits at level `lvl`: the clause has a
      single implication point there. */
  ghost predicate UniquePair(c: Clause, trail: seq<Entry>, lvl: nat) {
    exists a, b :: Pair(c, trail, lvl, a, b) && forall a', b' :: Pair(c, trail, lvl, a', b') ==> a' == a && b' == b
  }

  /** A literal `find_uip` may pick for resolution: its variable is at the
      conflict level and its antecedent is a clause, not `Given`. */
  predicate Resolvable(trail: seq<Entry>, lvl: nat, ante: Antecedents, l: Literal) {
    AtLevel(trail, l, lvl) && -l in ante && ante[-l] != Given
  }

  /** `find_uip` looks up the antecedent of every literal at the conflict
      level, raising KeyError when it is missing. */
  predicate UipDefined(c: Clause, trail: seq<Entry>, lvl: nat, ante: Antecedents) {
    forall l :: l in c && AtLevel(trail, l, lvl) ==> -l in ante
  }

  /** `find_uip`: the number of (literal, entry) pairs at the conflict level,
      and the last literal, in clause order, that can be resolved on
      (0 when there is none). What the two results mean is stated by
      `FindUipCount` and `FindUipPick`. */
  function FindUip(c: Clause, trail: seq<Entry>, lvl: nat, ante: Antecedents): (r: (nat, Literal))
    requires UipDefined(c, trail, lvl, ante)
    ensures r.1 == 0 || r.1 in c
    decreases |c|
  {
    if |c| == 0 then (0, 0)
    else
      var p := c[..|c| - 1];
      var l := c[|c| - 1];
      assert forall x :: x in p ==> x in c;
      var (count, resol) := FindUip(p, trail, lvl, ante);
      var h := Hits(l, trail, lvl);
      assert l in c;
      AnteOfHit(c, trail, lvl, ante, l);
      (count + h, if h > 0 && ante[-l] != Given then l else resol)
  }

  /** A literal of the clause at the conflict level has an antecedent entry. */
  lemma AnteOfHit(c: Clause, trail: seq<Entry>, lvl: nat, ante: Antecedents, l: Literal)
    requires UipDefined(c, trail, lvl, ante) && l in c
    ensures Hits(l, trail, lvl) > 0 ==> -l in ante
  {
  }

  /** The count of `find_uip` is 0 exactly when no literal of the clause is
      at the conflict level, and 1 exactly when one (literal, entry) pair is:
      the clause then has a unique implication point. */
  lemma {:induction false} FindUipCount(c: Clause, trail: seq<Entry>, lvl: nat, ante: Antecedents)
    requires UipDefined(c, trail, lvl, ante)
    ensures FindUip(c, trail, lvl, ante).0 == 0 <==> NoPair(c, trail, lvl)
    ensures FindUip(c, trail, lvl, ante).0 == 1 <==> UniquePair(c, trail, lvl)
    decreases |c|
  {
    if |c| > 0 {
      var p := c[..|c| - 1];
      assert forall x :: x in p ==> x in c;
      FindUipCount(p, trail, lvl, ante);
      var count := FindUip(p, trail, lvl, ante).0;
      var h := Hits(c[|c| - 1], trail, lvl);
      CountStepZero(c, trail, lvl, count, h);
      CountStepOne(c, trail, lvl, count, h);
    }
  }

  /** The literal `find_uip` returns for resolution is the last resolvable
      literal of the clause, or 0 when there is none. */
  lemma {:induction false} FindUipPick(c: Clause, trail: seq<Entry>, lvl: nat, ante: Antecedents)
    requires UipDefined(c, trail, lvl, ante) && 0 !in c
    ensures PickedLast(c, trail, lvl, ante, FindUip(c, trail, lvl, ante).1)
    decreases |c|
  {
    if |c| > 0 {
      var p := c[..|c| - 1];
      var l := c[|c| - 1];
      assert forall x :: x in p ==> x in c;
      assert l in c;
      FindUipPick(p, trail, lvl, ante);
      if Hits(l, trail, lvl) > 0 && ante[-l] != Given {
        ResolTake(c, trail, lvl, ante);
      } else {
        ResolKeep(c, trail, lvl, ante, FindUip(p, trail, lvl, ante).1);
      }
    }
  }

  /** `r` is the last literal of `c`, in clause order, that can be resolved
      on, or 0 when no literal of `c` can. */
  predicate PickedLast(c: Clause, trail: seq<Entry>, lvl: nat, ante: Antecedents, r: Literal) {
    && (r != 0 ==> exists a :: 0 <= a < |c| && c[a] == r && Resolvable(trail, lvl, ante, r) &&
                              forall a' :: a < a' < |c| ==> !Resolvable(trail, lvl, ante, c[a']))
    && (r == 0 ==> forall a :: 0 <= a < |c| ==> !Resolvable(trail, lvl, ante, c[a]))
  }

  /** The literal picked for resolution when the last literal is not resolvable. */
  lemma ResolKeep(c: Clause, trail: seq<Entry>, lvl: nat, ante: Antecedents, resol: Literal)
    requires |c| > 0 && !Resolvable(trail, lvl, ante, c[|c| - 1])
    requires PickedLast(c[..|c| - 1], trail, lvl, ante, resol)
    ensures PickedLast(c, trail, lvl, ante, resol)
  {
    var p := c[..|c| - 1];
    if resol != 0 {
      var a :| 0 <= a < |p| && p[a] == resol && Resolvable(trail, lvl, ante, resol) &&
               forall a' :: a < a' < |p| ==> !Resolvable(trail, lvl, ante, p[a']);
      assert c[a] == resol;
      forall a' | a < a' < |c| ensures !Resolvable(trail, lvl, ante, c[a']) {
        if a' < |p| { assert c[a'] == p[a']; }
      }
    } else {
      forall a | 0 <= a < |c| ensures !Resolvable(trail, lvl, ante, c[a]) {
        if a < |p| { assert c[a] == p[a]; }
      }
    }
  }

  /** The literal picked when the last literal is resolvable: the last one. */
  lemma ResolTake(c: Clause, trail: seq<Entry>, lvl: nat, ante: Antecedents)
    requires |c| > 0 && c[|c| - 1] != 0 && Resolvable(trail, lvl, ante, c[|c| - 1])
    ensures PickedLast(c, trail, lvl, ante, c[|c| - 1])
  {
    var last := |c| - 1;
    assert 0 <= last < |c| && c[last] == c[last];
  }

  /** The pairs of a clause are those of its prefix plus those of its last literal. */
  lemma PairSplit(c: Clause, trail: seq<Entry>, lvl: nat)
    requires |c| > 0
    ensures forall a, b :: Pair(c, trail, lvl, a, b) <==>
              Pair(c[..|c| - 1], trail, lvl, a, b) || (a == |c| - 1 && HitAt(trail, c[|c| - 1], lvl, b))
  {
    var p := c[..|c| - 1];
    forall a, b ensures Pair(c, trail, lvl, a, b) <==> Pair(p, trail, lvl, a, b) || (a == |c| - 1 && HitAt(trail, c[|c| - 1], lvl, b)) {
      if 0 <= a < |c| - 1 { assert p[a] == c[a]; }
    }
  }

  /** Adding the last literal's hits to the count of the prefix: no pair. */
  lemma CountStepZero(c: Clause, trail: seq<Entry>, lvl: nat, count: nat, h: nat)
    requires |c| > 0
    requires count == 0 <==> NoPair(c[..|c| - 1], trail, lvl)
    requires h == Hits(c[|c| - 1], trail, lvl)
    ensures count + h == 0 <==> NoPair(c, trail, lvl)
  {
    var p := c[..|c| - 1];
    var last := |c| - 1;
    PairSplit(c, trail, lvl);
    if NoPair(c, trail, lvl) {
      forall a, b ensures !Pair(p, trail, lvl, a, b) {
        assert !Pair(c, trail, lvl, a, b);
      }
      forall b | 0 <= b < |trail| ensures !HitAt(trail, c[last], lvl, b) {
        assert !Pair(c, trail, lvl, last, b);
      }
    }
    if count + h == 0 {
      forall a, b ensures !Pair(c, trail, lvl, a, b) {
        assert !Pair(p, trail, lvl, a, b);
        assert !HitAt(trail, c[last], lvl, b);
      }
    }
  }

  /** Adding the last literal's hits to the count of the prefix: a unique pair. */
  lemma CountStepOne(c: Clause, trail: seq<Entry>, lvl: nat, count: nat, h: nat)
    requires |c| > 0
    requires count == 0 <==> NoPair(c[..|c| - 1], trail, lvl)
    requires count == 1 <==> UniquePair(c[..|c| - 1], trail, lvl)
    requires h == Hits(c[|c| - 1], trail, lvl)
    ensures count + h == 1 ==> UniquePair(c, trail, lvl)
    ensures UniquePair(c, trail, lvl) ==> count + h == 1
  {
    PairSplit(c, trail, lvl);
    if count + h == 1 {
      UniqueFromParts(c, trail, lvl, count, h);
    }
    if UniquePair(c, trail, lvl) {
      PartsFromUnique(c, trail, lvl, count, h);
    }
  }

  lemma UniqueFromParts(c: Clause, trail: seq<Entry>, lvl: nat, count: nat, h: nat)
    requires |c| > 0 && count + h == 1
    requires count == 0 <==> NoPair(c[..|c| - 1], trail, lvl)
    requires count == 1 <==> UniquePair(c[..|c| - 1], trail, lvl)
    requires h == Hits(c[|c| - 1], trail, lvl)
    requires forall a, b :: Pair(c, trail, lvl, a, b) <==>
              Pair(c[..|c| - 1], trail, lvl, a, b) || (a == |c| - 1 && HitAt(trail, c[|c| - 1], lvl, b))
    ensures UniquePair(c, trail, lvl)
  {
    var p := c[..|c| - 1];
    var last := |c| - 1;
    if count == 1 {
      var a, b :| Pair(p, trail, lvl, a, b) && forall a', b' :: Pair(p, trail, lvl, a', b') ==> a' == a && b' == b;
      assert Pair(c, trail, lvl, a, b);
      forall a', b' | Pair(c, trail, lvl, a', b') ensures a' == a && b' == b {
        assert h == 0;
        assert !HitAt(trail, c[last], lvl, b');
      }
    } else {
      var b :| HitAt(trail, c[last], lvl, b) && forall b' :: HitAt(trail, c[last], lvl, b') ==> b' == b;
      assert Pair(c, trail, lvl, last, b);
      forall a', b' | Pair(c, trail, lvl, a', b') ensures a' == last && b' == b {
        assert !Pair(p, trail, lvl, a', b');
      }
    }
  }

  lemma PartsFromUnique(c: Clause, trail: seq<Entry>, lvl: nat, count: nat, h: nat)
    requires |c| > 0 && UniquePair(c, trail, lvl)
    requires count == 0 <==> NoPair(c[..|c| - 1], trail, lvl)
    requires count == 1 <==> UniquePair(c[..|c| - 1], trail, lvl)
    requires h == Hits(c[|c| - 1], trail, lvl)
    ensures count + h == 1
  {
    var a, b :| Pair(c, trail, lvl, a, b) && forall a', b' :: Pair(c, trail, lvl, a', b') ==> a' == a && b' == b;
    if a == |c| - 1 {
      UniqueAtLast(c, trail, lvl, b);
    } else {
      UniqueBeforeLast(c, trail, lvl, a, b);
    }
  }

  /** The single pair of a clause sits on its last literal. */
  lemma UniqueAtLast(c: Clause, trail: seq<Entry>, lvl: nat, b: int)
    requires |c| > 0 && Pair(c, trail, lvl, |c| - 1, b)
    requires forall a', b' :: Pair(c, trail, lvl, a', b') ==> a' == |c| - 1 && b' == b
    ensures NoPair(c[..|c| - 1], trail, lvl)
    ensures Hits(c[|c| - 1], trail, lvl) == 1
  {
    var p := c[..|c| - 1];
    var l := c[|c| - 1];
    forall a', b' | 0 <= a' < |p| ensures !HitAt(trail, p[a'], lvl, b') {
      assert p[a'] == c[a'];
      assert HitAt(trail, p[a'], lvl, b') ==> Pair(c, trail, lvl, a', b');
    }
    forall b' | HitAt(trail, l, lvl, b') ensures b' == b {
      assert Pair(c, trail, lvl, |c| - 1, b');
    }
  }

  /** The single pair of a clause sits before its last literal. */
  lemma UniqueBeforeLast(c: Clause, trail: seq<Entry>, lvl: nat, a: int, b: int)
    requires 0 <= a < |c| - 1 && Pair(c, trail, lvl, a, b)
    requires forall a', b' :: Pair(c, trail, lvl, a', b') ==> a' == a && b' == b
    ensures UniquePair(c[..|c| - 1], trail, lvl)
    ensures Hits(c[|c| - 1], trail, lvl) == 0
  {
    var p := c[..|c| - 1];
    assert p[a] == c[a];
    assert Pair(p, trail, lvl, a, b);
    forall a', b' | Pair(p, trail, lvl, a', b') ensures a' == a && b' == b {
      assert p[a'] == c[a'];
      assert Pair(c, trail, lvl, a', b');
    }
    var l := c[|c| - 1];
    forall b' | 0 <= b' < |trail| ensures !HitAt(trail, l, lvl, b') {
      assert HitAt(trail, l, lvl, b') ==> Pair(c, trail, lvl, |c| - 1, b');
    }
  }

  /** The outcome of `analise_conflict`: a backtrack level with the learned
      clause, an exception raised inside the loop (`Failed`), or the fuel
      bound reached (`Exhausted`). */
  datatype AnalysisResult = Learned(level: int, clause: Clause) | Failed | Exhausted

  /** A literal of a clause of the formula is a literal of the formula. */
  lemma MemberLits(cfn: Formula, c: Clause)
    requires c in cfn
    ensures forall l :: l in c ==> l in Lits(cfn)
  {
    var k :| 0 <= k < |cfn| && cfn[k] == c;
    forall l | l in c ensures l in Lits(cfn) {
      assert l in cfn[k];
    }
  }

  /** The `while True` loop of `analise_conflict` at conflict level `lvl`:
      stop at a unique implication point, otherwise resolve the working clause
      with the antecedent of the literal `find_uip` picked. A missing
      antecedent (KeyError), an index past the formula (IndexError) or a
      pivot absent from the merge (ValueError) raises. */
  function UipLoop(cfn: Formula, trail: seq<Entry>, ante: Antecedents, lvl: nat, c: Clause, fuel: nat): (r: AnalysisResult)
    ensures r.Learned? ==> UniquePair(r.clause, trail, lvl) && r.level >= 0
    ensures r.Learned? && lvl > 0 ==> r.level < lvl
    ensures r.Learned? ==> forall l, b :: l in r.clause && OnTrail(trail, l, b) && trail[b].level < lvl ==>
                              trail[b].level <= r.level
    ensures r.Learned? ==> r.level == 0 ||
                           exists l, b :: l in r.clause && OnTrail(trail, l, b) && trail[b].level == r.level
    ensures r.Learned? ==> forall l :: l in r.clause ==> l in c || l in Lits(cfn)
    decreases fuel
  {
    if !UipDefined(c, trail, lvl, ante) then Failed
    else
      FindUipCount(c, trail, lvl, ante);
      var (count, resol) := FindUip(c, trail, lvl, ante);
      if count == 1 then Learned(FindAssertLvl(c, trail, lvl), c)
      else if fuel == 0 then Exhausted
      else if -resol !in ante || !(-|cfn| <= ante[-resol] < |cfn|) then Failed
      else
        var a := PyAt(cfn, ante[-resol]);
        if !CanResolve(a, c, resol) then Failed
        else
          var c' := Resolve(a, c, resol);
          MemberLits(cfn, a);
          UipLoop(cfn, trail, ante, lvl, c', fuel - 1)
  }

  /** `analise_conflict`: start from the clause that key 0 of the antecedent
      map names; a conflict at level 0 yields `(-1, [])` (unsatisfiable),
      otherwise the first-UIP loop runs at the conflict level. */
  function AnalyzeConflict(cfn: Formula, trail: seq<Entry>, ante: Antecedents, fuel: nat): (r: AnalysisResult)
    ensures (0 !in ante || !(-|cfn| <= ante[0] < |cfn|)) ==> r == Failed
    ensures r.Learned? && r.level < 0 ==> r == Learned(-1, [])
    ensures r == Learned(-1, []) <==>
              0 in ante && -|cfn| <= ante[0] < |cfn| && FindConflictLvl(PyAt(cfn, ante[0]), trail) == 0
    ensures r.Learned? && r.level >= 0 ==>
              var lvl := FindConflictLvl(PyAt(cfn, ante[0]), trail);
              && lvl > 0 && r.level < lvl
              && UniquePair(r.clause, trail, lvl)
              && (forall l, b :: l in r.clause && OnTrail(trail, l, b) && trail[b].level < lvl ==>
                                    trail[b].level <= r.level)
    ensures r.Learned? && r.level > 0 ==>
              exists l, b :: l in r.clause && OnTrail(trail, l, b) && trail[b].level == r.level
    ensures r.Learned? ==> forall l :: l in r.clause ==> l in Lits(cfn)
  {
    if 0 !in ante || !(-|cfn| <= ante[0] < |cfn|) then Failed
    else
      var c := PyAt(cfn, ante[0]);
      MemberLits(cfn, c);
      var lvl := FindConflictLvl(c, trail);
      if lvl == 0 then Learned(-1, [])
      else UipLoop(cfn, trail, ante, lvl, c, fuel)
  }
}
