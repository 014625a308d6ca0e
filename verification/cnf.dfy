/** Literals, clauses and formulas as the solver stores them: a literal is a
    signed variable number, a clause a list of literals and the formula a
    list of clauses (original clauses first, learned clauses appended). */
module Cnf {

  type Literal = int
  type Clause = seq<Literal>
  type Formula = seq<Clause>

  function Abs(x: int): nat {
    if x < 0 then -x else x
  }

  /** Every literal occurring somewhere in the formula. */
  function Lits(cfn: Formula): set<Literal> {
    set k, l | 0 <= k < |cfn| && l in cfn[k] :: l
  }

  /** No clause mentions literal 0 (the reader strips the terminating 0 of
      each DIMACS line, so 0 never reaches the solver). */
  predicate NoZero(cfn: Formula) {
    forall k :: 0 <= k < |cfn| ==> 0 !in cfn[k]
  }

  /** No clause mentions literal 0, and every variable is one of 1..n.
      The score tables are indexed by `variable - 1`, so a larger variable
      would make the solver raise IndexError. */
  predicate WithinVars(c: Clause, n: nat) {
    forall l :: l in c ==> 1 <= Abs(l) <= n
  }

  predicate FormulaWithinVars(cfn: Formula, n: nat) {
    forall k :: 0 <= k < |cfn| ==> WithinVars(cfn[k], n)
  }

  /** The literals of a formula all satisfy the variable bound. */
  lemma LitsWithinVars(cfn: Formula, n: nat)
    requires FormulaWithinVars(cfn, n)
    ensures forall l :: l in Lits(cfn) ==> 1 <= Abs(l) <= n
  {
    forall l | l in Lits(cfn) ensures 1 <= Abs(l) <= n {
      var k :| 0 <= k < |cfn| && l in cfn[k];
      assert WithinVars(cfn[k], n);
    }
  }
}
