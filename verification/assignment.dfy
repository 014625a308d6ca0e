/** The assignment trail `self.v`: a list of `[variable, value, level]`
    triples in the order the assignments were made. Nothing stops a variable
    from appearing twice (propagation may append the opposite value of an
    assigned variable), so the trail is a plain sequence, not a map. */
module Assignment {
  import opened Cnf

  /** One trail element; `value` is the source's 1 (true) / 0 (false). */
  datatype Entry = Entry(variable: int, value: bool, level: nat)

  /** `antecedent_clause`: for the true literal of an assignment, the index of
      the clause that forced it, or `Given` for decisions and unit facts;
      key 0 transiently holds the index of the conflicting clause. */
  type Antecedents = map<Literal, int>

  const Given: int := -1

  /** The literal an entry makes true: its variable when the value is 1, the negation when 0. */
  function TrueLit(e: Entry): Literal {
    if e.value then e.variable else -e.variable
  }

  /** The entry recording literal `x` at `level`: variable |x|, value 1 exactly when x >= 0. */
  function EntryFor(x: Literal, level: nat): (e: Entry)
    ensures x != 0 ==> TrueLit(e) == x && Asserts(e, x) && e.variable >= 1
    ensures e.level == level
  {
    Entry(Abs(x), x >= 0, level)
  }

  /** The literals the entries of a trail make true. */
  function TrueLits(trail: seq<Entry>): set<Literal>
    decreases |trail|
  {
    if |trail| == 0 then {} else TrueLits(trail[..|trail| - 1]) + {TrueLit(trail[|trail| - 1])}
  }

  /** A literal is among `TrueLits` exactly when some entry makes it true. */
  lemma {:induction false} TrueLitsMembers(trail: seq<Entry>)
    ensures forall x :: x in TrueLits(trail) <==> exists i :: 0 <= i < |trail| && TrueLit(trail[i]) == x
    decreases |trail|
  {
    if |trail| > 0 {
      var p := trail[..|trail| - 1];
      TrueLitsMembers(p);
      assert forall i :: 0 <= i < |p| ==> p[i] == trail[i];
    }
  }

  /** The test of `find_literal`: the entry holds variable `abs(x)` with the
      polarity of `x` (so no entry asserts literal 0). */
  predicate Asserts(e: Entry, x: Literal) {
    e.variable == Abs(x) && ((x < 0 && !e.value) || (x > 0 && e.value))
  }

  /** Some trail entry makes `x` true. */
  predicate IsTrue(trail: seq<Entry>, x: Literal) {
    exists i :: 0 <= i < |trail| && Asserts(trail[i], x)
  }

  /** Every entry names a proper variable (1 or more). */
  predicate Positive(trail: seq<Entry>) {
    forall i :: 0 <= i < |trail| ==> trail[i].variable >= 1
  }

  /** Every entry names one of the variables 1..n. */
  predicate VarsWithin(trail: seq<Entry>, n: nat) {
    forall i :: 0 <= i < |trail| ==> 1 <= trail[i].variable <= n
  }

  /** For entries of proper variables, `Asserts` is exactly "its true literal is x". */
  lemma AssertsIffTrueLit(e: Entry, x: Literal)
    requires e.variable >= 1
    ensures Asserts(e, x) <==> TrueLit(e) == x
  {
  }

  /** A literal made true by a trail stays true when the trail is extended. */
  lemma IsTrueGrows(trail: seq<Entry>, ext: seq<Entry>)
    requires trail <= ext
    ensures forall x :: IsTrue(trail, x) ==> IsTrue(ext, x)
  {
    forall x | IsTrue(trail, x) ensures IsTrue(ext, x) {
      var i :| 0 <= i < |trail| && Asserts(trail[i], x);
      assert ext[i] == trail[i];
    }
  }
}
