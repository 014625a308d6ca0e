/** Non-chronological backtracking (`backtrack`, `var_gr8_decision_lvl`,
    `remover`): every assignment made at the backtrack level or above is
    taken off the trail, its antecedent entry is forgotten and the score of
    its variable is reset to the value computed from the original formula. */
module Backjump {
  import opened Seqs
  import opened Cnf
  import opened Assignment

  /** The reference definition: the entries made below level `b`, in trail order. */
  function Below(trail: seq<Entry>, b: nat): (r: seq<Entry>)
    ensures forall e :: e in r <==> e in trail && e.level < b
    ensures forall i :: 0 <= i < |r| ==> r[i].level < b
    decreases |trail|
  {
    if |trail| == 0 then []
    else (if trail[0].level < b then [trail[0]] else []) + Below(trail[1..], b)
  }

  /** The entries made at level `b` or above, in trail order. */
  function Above(trail: seq<Entry>, b: nat): (r: seq<Entry>)
    ensures forall e :: e in r <==> e in trail && e.level >= b
    ensures multiset(r) <= multiset(trail)
    decreases |trail|
  {
    if |trail| == 0 then []
    else
      assert trail == [trail[0]] + trail[1..];
      (if trail[0].level >= b then [trail[0]] else []) + Above(trail[1..], b)
  }

  /** Some entry at level `b` or above holds variable `v`. */
  predicate RemovedVar(trail: seq<Entry>, b: nat, v: int) {
    exists j :: 0 <= j < |trail| && trail[j].level >= b && trail[j].variable == v
  }

  /** Some entry at level `b` or above makes `k` true. */
  predicate RemovedLit(trail: seq<Entry>, b: nat, k: Literal) {
    exists i :: 0 <= i < |trail| && trail[i].level >= b && TrueLit(trail[i]) == k
  }

  /** An entry makes `k` true from level `b` on exactly when the head does or
      an entry of the tail does. */
  lemma RemovedLitCons(trail: seq<Entry>, b: nat)
    requires |trail| > 0
    ensures forall k :: RemovedLit(trail, b, k) <==>
              (trail[0].level >= b && TrueLit(trail[0]) == k) || RemovedLit(trail[1..], b, k)
  {
    var e := trail[0];
    forall k ensures RemovedLit(trail, b, k) <==> (e.level >= b && TrueLit(e) == k) || RemovedLit(trail[1..], b, k) {
      if RemovedLit(trail[1..], b, k) {
        var i :| 0 <= i < |trail[1..]| && trail[1..][i].level >= b && TrueLit(trail[1..][i]) == k;
        assert trail[i + 1] == trail[1..][i];
      }
      if RemovedLit(trail, b, k) && !(e.level >= b && TrueLit(e) == k) {
        var i :| 0 <= i < |trail| && trail[i].level >= b && TrueLit(trail[i]) == k;
        assert trail[1..][i - 1] == trail[i];
      }
    }
  }

  /** `var_gr8_decision_lvl(b)`: walking the trail in order, list every entry
      at level `b` or above and delete the antecedent entry of its true literal. */
  function EntriesFrom(trail: seq<Entry>, ante: Antecedents, b: nat): (r: (seq<Entry>, Antecedents))
    ensures r.0 == Above(trail, b)
    ensures forall k :: k in r.1 <==> k in ante && !RemovedLit(trail, b, k)
    ensures forall k :: k in r.1 ==> r.1[k] == ante[k]
    decreases |trail|
  {
    if |trail| == 0 then ([], ante)
    else
      var e := trail[0];
      var ante1 := if e.level >= b then ante - {TrueLit(e)} else ante;
      var (rest, ante2) := EntriesFrom(trail[1..], ante1, b);
      RemovedLitCons(trail, b);
      ((if e.level >= b then [e] else []) + rest, ante2)
  }

  /** Removing the listed entries one by one, as `remover` does, leaves
      exactly the entries made below level `b`, in their order. */
  lemma {:induction false} RemoveListed(trail: seq<Entry>, b: nat)
    ensures RemoveEach(trail, Above(trail, b)) == Below(trail, b)
    decreases |trail|
  {
    if |trail| > 0 {
      RemoveListed(trail[1..], b);
      RemoveListedStep(trail, b);
    }
  }

  /** One step of the induction: the property passes from the tail to the trail. */
  lemma RemoveListedStep(trail: seq<Entry>, b: nat)
    requires |trail| > 0
    requires RemoveEach(trail[1..], Above(trail[1..], b)) == Below(trail[1..], b)
    ensures RemoveEach(trail, Above(trail, b)) == Below(trail, b)
  {
    if trail[0].level >= b {
      RemoveListedHead(trail, b);
    } else {
      RemoveKeptHead(trail, b);
    }
  }

  /** A head at level `b` or above is listed first and removed first. */
  lemma RemoveListedHead(trail: seq<Entry>, b: nat)
    requires |trail| > 0 && trail[0].level >= b
    requires RemoveEach(trail[1..], Above(trail[1..], b)) == Below(trail[1..], b)
    ensures RemoveEach(trail, Above(trail, b)) == Below(trail, b)
  {
    var rest := Above(trail[1..], b);
    assert Above(trail, b) == [trail[0]] + rest;
    RemoveEachCons(trail, trail[0], rest);
    RemoveFirstFront(trail);
    assert Below(trail, b) == Below(trail[1..], b);
  }

  /** A head below level `b` is not listed and stays in front. */
  lemma RemoveKeptHead(trail: seq<Entry>, b: nat)
    requires |trail| > 0 && trail[0].level < b
    requires RemoveEach(trail[1..], Above(trail[1..], b)) == Below(trail[1..], b)
    ensures RemoveEach(trail, Above(trail, b)) == Below(trail, b)
  {
    var rest := Above(trail[1..], b);
    AboveSkip(trail, b);
    assert trail[0] !in rest;
    RemoveEachFront(trail, rest);
    BelowKeep(trail, b);
  }

  /** A head below level `b` is not listed. */
  lemma AboveSkip(trail: seq<Entry>, b: nat)
    requires |trail| > 0 && trail[0].level < b
    ensures Above(trail, b) == Above(trail[1..], b)
  {
    assert [] + Above(trail[1..], b) == Above(trail[1..], b);
  }

  /** A head below level `b` is kept in front. */
  lemma BelowKeep(trail: seq<Entry>, b: nat)
    requires |trail| > 0 && trail[0].level < b
    ensures Below(trail, b) == [trail[0]] + Below(trail[1..], b)
  {
  }

  /** The listed entries hold exactly the variables assigned at level `b` or above. */
  lemma ListedAbove(trail: seq<Entry>, b: nat)
    ensures forall v :: Listed(Above(trail, b), v) <==> RemovedVar(trail, b, v)
  {
    var rmv := Above(trail, b);
    forall v ensures Listed(rmv, v) <==> RemovedVar(trail, b, v) {
      if Listed(rmv, v) {
        var j :| 0 <= j < |rmv| && rmv[j].variable == v;
        assert rmv[j] in trail;
      }
      if RemovedVar(trail, b, v) {
        var j :| 0 <= j < |trail| && trail[j].level >= b && trail[j].variable == v;
        assert trail[j] in rmv;
      }
    }
  }

  /** The listed entries inherit the variable bound of the trail. */
  lemma AboveWithin(trail: seq<Entry>, b: nat, n: nat)
    requires VarsWithin(trail, n)
    ensures VarsWithin(Above(trail, b), n)
  {
    var rmv := Above(trail, b);
    forall j | 0 <= j < |rmv| ensures 1 <= rmv[j].variable <= n {
      assert rmv[j] in trail;
    }
  }

  /** No entry of a proper variable makes literal 0 true. */
  lemma NoZeroRemoved(trail: seq<Entry>, b: nat)
    requires Positive(trail)
    ensures !RemovedLit(trail, b, 0)
  {
  }

  /** The part of the solver state that backtracking changes. */
  datatype Backjumped = Backjumped(trail: seq<Entry>, ante: Antecedents, freq: seq<real>)

  /** Some listed entry names variable `v`. */
  predicate Listed(rmv: seq<Entry>, v: int) {
    exists j :: 0 <= j < |rmv| && rmv[j].variable == v
  }

  /** The score loop of `remover`: the score of every listed variable goes
      back to its original value; the others keep theirs. */
  function ResetScores(freq: seq<real>, orig: seq<real>, rmv: seq<Entry>): (r: seq<real>)
    requires |orig| == |freq|
    requires VarsWithin(rmv, |freq|)
    ensures |r| == |freq|
    ensures forall i :: 0 <= i < |r| ==> r[i] == if Listed(rmv, i + 1) then orig[i] else freq[i]
    decreases |rmv|
  {
    if |rmv| == 0 then freq
    else
      var p := rmv[..|rmv| - 1];
      var v := rmv[|rmv| - 1].variable;
      var prev := ResetScores(freq, orig, p);
      assert forall u :: Listed(rmv, u) <==> Listed(p, u) || u == v by {
        forall u ensures Listed(rmv, u) <==> Listed(p, u) || u == v {
          if Listed(p, u) {
            var j :| 0 <= j < |p| && p[j].variable == u;
            assert rmv[j] == p[j];
          }
          if Listed(rmv, u) && u != v {
            var j :| 0 <= j < |rmv| && rmv[j].variable == u;
            assert p[j] == rmv[j];
          }
        }
      }
      prev[v - 1 := orig[v - 1]]
  }

  /** `remover(rmv_lst)`: take each listed entry off the trail, reset the
      score of its variable, then delete key 0 (the conflicting clause) from
      the antecedent map. The source raises when an entry is missing
      (ValueError), a variable is out of the score table (IndexError) or key 0
      is absent (KeyError); those are the preconditions. */
  function Remover(st: Backjumped, orig: seq<real>, rmv: seq<Entry>): (r: Backjumped)
    requires multiset(rmv) <= multiset(st.trail)
    requires |orig| == |st.freq|
    requires VarsWithin(rmv, |st.freq|)
    requires 0 in st.ante
    ensures multiset(r.trail) == multiset(st.trail) - multiset(rmv)
    ensures forall k :: k in r.ante <==> k in st.ante && k != 0
    ensures forall k :: k in r.ante ==> r.ante[k] == st.ante[k]
    ensures |r.freq| == |st.freq|
    ensures forall i :: 0 <= i < |r.freq| ==> r.freq[i] == if Listed(rmv, i + 1) then orig[i] else st.freq[i]
  {
    Backjumped(RemoveEach(st.trail, rmv), map k | k in st.ante && k != 0 :: st.ante[k], ResetScores(st.freq, orig, rmv))
  }

  /** `backtrack(b)`: list the entries at level `b` and above, remove them,
      and return `b` as the new decision level. Afterwards the trail is the
      part made below level `b`, the antecedent map has lost the true
      literals of the removed entries and key 0, and the removed variables
      have their original scores back. */
  function Backtrack(st: Backjumped, orig: seq<real>, b: nat): (r: (nat, Backjumped))
    requires |orig| == |st.freq|
    requires VarsWithin(st.trail, |st.freq|)
    requires 0 in st.ante
    ensures r.0 == b
    ensures r.1.trail == Below(st.trail, b)
    ensures forall i :: 0 <= i < |r.1.trail| ==> r.1.trail[i].level < b
    ensures forall k :: k in r.1.ante <==> k in st.ante && k != 0 && !RemovedLit(st.trail, b, k)
    ensures forall k :: k in r.1.ante ==> r.1.ante[k] == st.ante[k]
    ensures |r.1.freq| == |st.freq|
    ensures forall i :: 0 <= i < |r.1.freq| ==>
              r.1.freq[i] == if RemovedVar(st.trail, b, i + 1) then orig[i] else st.freq[i]
  {
    var (rmv, ante1) := EntriesFrom(st.trail, st.ante, b);
    RemoveListed(st.trail, b);
    NoZeroRemoved(st.trail, b);
    AboveWithin(st.trail, b, |st.freq|);
    ListedAbove(st.trail, b);
    (b, Remover(Backjumped(st.trail, ante1, st.freq), orig, rmv))
  }
}
