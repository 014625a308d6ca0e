/** Root-level set-up: unit clauses become level-0 facts (`add_unary`), and
    clauses already satisfied by a known fact are deleted (`pre_del`). */
module Simplify {
  import opened Seqs
  import opened Cnf
  import opened Assignment

  /** The trail and the antecedent map, the part of the solver state that
      `add_unary` changes. */
  datatype Roots = Roots(trail: seq<Entry>, ante: Antecedents)

  /** `add_unary(item)`: a one-literal clause is pushed as a level-0 fact with
      the `Given` antecedent; any other clause leaves the state alone. */
  function AddUnary(st: Roots, item: Clause): (r: Roots)
    ensures st.trail <= r.trail
    ensures |r.trail| == |st.trail| + (if |item| == 1 then 1 else 0)
    ensures |item| == 1 ==> r.trail == st.trail + [EntryFor(item[0], 0)]
    ensures |item| == 1 ==>
              var e := r.trail[|st.trail|];
              TrueLit(e) == item[0] && e.level == 0 && e.variable >= 0 &&
              item[0] in r.ante && r.ante[item[0]] == Given
    ensures forall k :: (|item| != 1 || k != item[0]) ==>
              (k in r.ante <==> k in st.ante) && (k in st.ante ==> r.ante[k] == st.ante[k])
  {
    if |item| == 1 then
      Roots(st.trail + [EntryFor(item[0], 0)], st.ante[item[0] := Given])
    else st
  }

  /** The loop of `solve` that calls `add_unary` on every clause, from an
      empty trail and an empty antecedent map. */
  function AddUnits(cfn: Formula): (r: Roots)
    ensures forall i :: 0 <= i < |r.trail| ==>
              r.trail[i].level == 0 && r.trail[i].variable >= 0 && [TrueLit(r.trail[i])] in cfn
    ensures forall c :: c in cfn && |c| == 1 ==> exists i :: 0 <= i < |r.trail| && TrueLit(r.trail[i]) == c[0]
    ensures forall i :: 0 <= i < |r.trail| ==> TrueLit(r.trail[i]) in r.ante && r.ante[TrueLit(r.trail[i])] == Given
    decreases |cfn|
  {
    if |cfn| == 0 then Roots([], map[])
    else
      var prev := AddUnits(cfn[..|cfn| - 1]);
      var item := cfn[|cfn| - 1];
      var r := AddUnary(prev, item);
      assert cfn == cfn[..|cfn| - 1] + [item];
      assert |item| == 1 ==> item == [item[0]];
      assert forall i :: 0 <= i < |prev.trail| ==> r.trail[i] == prev.trail[i];
      r
  }

  /** `add_unary` keeps the keys of the antecedent map equal to the true
      literals of the trail. */
  lemma UnaryKeys(st: Roots, item: Clause)
    requires st.ante.Keys == TrueLits(st.trail)
    ensures AddUnary(st, item).ante.Keys == TrueLits(AddUnary(st, item).trail)
  {
    if |item| == 1 {
      var t := st.trail + [EntryFor(item[0], 0)];
      assert t[..|t| - 1] == st.trail;
    }
  }

  /** The keys of the map the `add_unary` loop builds are exactly the
      literals of the unit facts on the trail. */
  lemma AddUnitsKeys(cfn: Formula)
    ensures forall k :: k in AddUnits(cfn).ante <==> exists i :: 0 <= i < |AddUnits(cfn).trail| && TrueLit(AddUnits(cfn).trail[i]) == k
  {
    UnitKeySet(cfn);
    TrueLitsMembers(AddUnits(cfn).trail);
  }

  lemma {:induction false} UnitKeySet(cfn: Formula)
    ensures AddUnits(cfn).ante.Keys == TrueLits(AddUnits(cfn).trail)
    decreases |cfn|
  {
    if |cfn| > 0 {
      var p := cfn[..|cfn| - 1];
      UnitKeySet(p);
      UnaryKeys(AddUnits(p), cfn[|cfn| - 1]);
    }
  }

  /** Some trail entry makes a literal of the clause true. */
  predicate SatisfiedBy(c: Clause, trail: seq<Entry>) {
    exists i :: 0 <= i < |trail| && TrueLit(trail[i]) in c
  }

  /** What `pre_del` deletes: clauses of two or more literals holding a
      literal that some trail entry makes true. */
  function Deletable(trail: seq<Entry>, cfn: Formula): set<Clause> {
    set c | c in cfn && |c| != 1 && SatisfiedBy(c, trail)
  }

  /** The inner loop of `pre_del` for one true literal `z`: collect, without
      repetition, every clause (other than a unit clause) containing `z`. */
  function CollectFor(z: Literal, cfn: Formula, rem: Formula): (r: Formula)
    ensures rem <= r
    ensures forall c :: c in r <==> c in rem || (c in cfn && z in c && |c| != 1)
    ensures NoDup(rem) ==> NoDup(r)
    decreases |cfn|
  {
    if |cfn| == 0 then rem
    else
      var lis := cfn[0];
      var rem' := if z in lis && |lis| != 1 && lis !in rem then rem + [lis] else rem;
      assert forall c :: c in cfn <==> c == cfn[0] || c in cfn[1..];
      CollectFor(z, cfn[1..], rem')
  }

  /** The outer loop of `pre_del`: the trail entries in order. */
  function Collect(trail: seq<Entry>, cfn: Formula, rem: Formula): (r: Formula)
    ensures forall c :: c in r <==> c in rem || c in Deletable(trail, cfn)
    ensures NoDup(rem) ==> NoDup(r)
    decreases |trail|
  {
    if |trail| == 0 then rem
    else
      var next := CollectFor(TrueLit(trail[0]), cfn, rem);
      var r := Collect(trail[1..], cfn, next);
      assert forall c :: SatisfiedBy(c, trail) <==> TrueLit(trail[0]) in c || SatisfiedBy(c, trail[1..]) by {
        forall c ensures SatisfiedBy(c, trail) <==> TrueLit(trail[0]) in c || SatisfiedBy(c, trail[1..]) {
          if SatisfiedBy(c, trail[1..]) {
            var i :| 0 <= i < |trail[1..]| && TrueLit(trail[1..][i]) in c;
            assert trail[i + 1] == trail[1..][i];
          }
          if SatisfiedBy(c, trail) && TrueLit(trail[0]) !in c {
            var i :| 0 <= i < |trail| && TrueLit(trail[i]) in c;
            assert trail[1..][i - 1] == trail[i];
          }
        }
      }
      r
  }

  /** `pre_del`: collect the deletable clauses, then remove each from the formula. */
  function PreDel(trail: seq<Entry>, cfn: Formula): (r: Formula)
    ensures forall c :: c in r ==> c in cfn
    ensures forall c :: c in cfn && c !in Deletable(trail, cfn) ==> c in r
  {
    var rem := Collect(trail, cfn, []);
    DistinctSubMultiset(cfn, rem);
    RemoveEachMembers(cfn, rem);
    RemoveEach(cfn, rem)
  }

  /** On a formula without repeated clauses (the reader builds it from a set),
      `pre_del` keeps exactly the unit clauses and the clauses no fact
      satisfies, in their original order. */
  lemma PreDelKeepsUnsatisfied(trail: seq<Entry>, cfn: Formula)
    requires NoDup(cfn)
    ensures PreDel(trail, cfn) == FilterOut(cfn, Deletable(trail, cfn))
    ensures forall c :: c in PreDel(trail, cfn) <==> c in cfn && (|c| == 1 || !SatisfiedBy(c, trail))
  {
    var rem := Collect(trail, cfn, []);
    RemoveEachIsFilter(cfn, rem);
    assert Elems(rem) == Deletable(trail, cfn);
  }
}
