# CDCL solver core in Dafny

A value-semantics model of the CDCL SAT solver in `CDCL/CDCL_Solver.py`. It covers:

- clause resolution (`resolve`);
- the root set-up (`add_unary`, `pre_del`, `update_freq_polar`);
- unit propagation with conflict detection (`detect_conflict`, `is_var`, `find_literal`);
- first-UIP conflict analysis (`analise_conflict`, `find_conflict_lvl`, `find_assert_lvl`, `find_uip`);
- non-chronological backtracking (`backtrack`, `var_gr8_decision_lvl`, `remover`);
- the decision heuristic (`decide`, `decay_freq`, `preprocess`, `update_variables`);
- the driver `solve`.

The solver object becomes an immutable record (`Solver.State`):

- `self.v` is `trail`, a sequence of `Entry(variable, value, level)`. The trail may hold two entries for one variable, as in the code.
- `antecedent_clause` is `ante`, a `map<int, int>` keyed by true literals. `Given` (-1) marks decisions and unit facts. Key 0 holds the index of the conflicting clause.
- `self.var` is `vars`, and `self.decision_level` is `level`.
- The score tables are `Heuristic.Scores`.

Every method of the class becomes a function from the old state to the new one.

The model follows the code, not the textbook algorithm, where the two differ:

- `find_literal` appends an entry unless the same literal is already true. This holds even when the variable is on the trail with the other value.
- A learned clause is pushed at level 0 when it is a unit clause, and not pushed at all otherwise.
- `backtrack(0)` also removes the level-0 facts.
- The decay runs when the conflict counter exceeds 100, and the counter then becomes `counter % 100`.
- `decide` takes the first maximal score after marking the assigned variables with -1. Its polarity is true exactly when the polarity score is positive.
- A literal whose variable has two entries at the conflict level is counted twice by `find_uip`.

Python exceptions are modelled as follows:

- Exceptions in the middle of the analysis loop make the analysis `Failed`, and `solve` then ends with the outcome `Raised`. They are a missing antecedent key (KeyError), an index past the formula (IndexError), or a pivot missing from the merge (ValueError).
- Where the code is only ever called once a lookup is known to succeed, the condition becomes a precondition. This applies to the antecedent keys in `find_uip`, the entries `remover` deletes, and key 0 in `remover`.
- The formula is indexed as Python indexes lists, negative indices counting from the end (`Analysis.PyAt`). The source never looks up a negative index: `find_uip` only picks literals whose antecedent is not `Given` (-1), and key 0 holds a clause index.

Unbounded loops run under an explicit fuel argument. Running out gives `Exhausted` in the analysis and `OutOfFuel` from `solve`.

A clause is *proper* (`Propagation.Proper`) when it repeats no literal and holds no literal together with its negation. The reader builds every clause from a `frozenset` (line 11), so it never repeats a literal; a clause such as `[1, -1]` is not proper.

The model corrects one defect of `detect_conflict`, listed under "## Findings": with an empty trail it never visits the clauses, so it misses the empty clause. `Propagation.DetectAsWritten` is the code as written, and `Propagation.DetectConflict`, used by the rest of the model, also reports the empty clause when the trail is empty.

## Model

| member | source | states |
|---|---|---|
| Resolution.CanResolveIff | CDCL/CDCL_Solver.py:18-20 | the two `remove` calls succeed exactly when both `x` and `-x` occur in `lis + ante` |
| Resolution.Pivotless | CDCL/CDCL_Solver.py:18-20 | the merged list after the removals holds exactly the merged multiset less one copy of `x` and one of `-x` |
| Resolution.PivotlessMembers | CDCL/CDCL_Solver.py:18-20 | only literals of `lis + ante` remain; every literal other than `x`, `-x` remains; pivots occurring once are gone |
| Resolution.Resolve | CDCL/CDCL_Solver.py:17-25 | the resolvent has no repetition; its literals are exactly those left after the removals; it keeps the first-occurrence order of the merged list; all literals come from `lis + ante` |
| Simplify.AddUnary | CDCL/CDCL_Solver.py:70-75 | a one-literal clause appends one level-0 entry making that literal true, with antecedent -1; any other clause changes nothing; no other key changes |
| Simplify.AddUnits | CDCL/CDCL_Solver.py:44-45 | every entry is a level-0 fact from a unit clause of the formula with antecedent -1, and every unit clause has its literal made true |
| Simplify.AddUnitsKeys | CDCL/CDCL_Solver.py:44-45 | after the `add_unary` loop, the keys of the antecedent map are exactly the literals that the unit facts on the trail make true |
| Simplify.CollectFor | CDCL/CDCL_Solver.py:83-85 | the collected list grows from `rem` by exactly the non-unit clauses containing `z`, without repetition |
| Simplify.Collect | CDCL/CDCL_Solver.py:79-85 | the collected clauses are exactly the non-unit clauses satisfied by some trail entry |
| Simplify.PreDel | CDCL/CDCL_Solver.py:77-87 | no clause is added, and every unit clause and every clause not satisfied by the trail is kept |
| Simplify.PreDelKeepsUnsatisfied | CDCL/CDCL_Solver.py:77-87 | on a formula without repeated clauses `pre_del` is the order-preserving filter keeping exactly the unit clauses and the unsatisfied ones |
| Heuristic.UpdateFreqPolar | CDCL/CDCL_Solver.py:89-93 | the frequency of variable `v` grows by the number of occurrences of `v` and `-v`; its polarity by occurrences of `v` minus those of `-v` |
| Heuristic.ScoreFormula | CDCL/CDCL_Solver.py:49-50 | scoring every clause adds to each variable's frequency its number of occurrences in the formula, of either sign, and to its polarity its positive minus its negative occurrences |
| Propagation.FindLiteral | CDCL/CDCL_Solver.py:120-127 | the trail grows by one entry exactly when `x` was not yet true; that entry makes `x` true at the current level; afterwards `x` is true |
| Propagation.IsVar | CDCL/CDCL_Solver.py:112-118 | only a one-literal list can extend the trail; the antecedent of the new literal is the clause index unless the literal is `-z`; no other key changes |
| Propagation.View | CDCL/CDCL_Solver.py:102-105 | a clause satisfied by `-z` is seen as `[-z]`; otherwise one copy of `z` is dropped and every other literal stays |
| Propagation.ScanClauses | CDCL/CDCL_Solver.py:100-109 | the inner loop keeps the scan invariant (working copies lost only false literals; new entries at the current level and implied by their antecedent) and never increases the open literals; without a conflict, every proper clause's working copy has lost the entry's falsified literal and is non-empty, and a one-literal copy is true |
| Propagation.ScanTrail | CDCL/CDCL_Solver.py:97-110 | the outer loop, including entries it appends itself, keeps the scan invariant and only extends the trail; it terminates; without a conflict, every entry has been handled against every clause |
| Propagation.DetectAsWritten | CDCL/CDCL_Solver.py:95-110 | the old trail is a prefix; new entries are at the current level and each is forced by its recorded clause; old keys stay; on a conflict key 0 names a clause the trail falsifies, otherwise key 0 is untouched; without a conflict on a non-empty trail, no proper clause is falsified and every literal a proper clause forces is true; on an empty trail nothing happens |
| Propagation.DetectConflict | CDCL/CDCL_Solver.py:95-110 | everything `DetectAsWritten` promises, and without a conflict no proper clause, the empty clause included, is falsified, whatever the trail |
| Heuristic.MarkAssigned | CDCL/CDCL_Solver.py:130-132 | every assigned variable has score -1 and every other score is unchanged |
| Heuristic.DecayFreq | CDCL/CDCL_Solver.py:138-144 | nothing changes up to 100 conflicts; above that the counter becomes `counter % 100`, the baseline is halved and every score except the -1 marker is halved |
| Heuristic.MaxOf | CDCL/CDCL_Solver.py:134 | the maximum is a score of the table and no score exceeds it |
| Heuristic.Decide | CDCL/CDCL_Solver.py:129-136 | the variable is in 1..N, has the maximal score, and no earlier variable reaches it; assigned variables carry -1; the sign is true exactly when the polarity is positive; the returned scores are the marked table after `decay_freq` |
| Heuristic.DecidePicksUnassigned | CDCL/CDCL_Solver.py:129-134 | when some unassigned variable has a non-negative score, `decide` never returns an assigned variable |
| Heuristic.DecayKeepsChoice | CDCL/CDCL_Solver.py:133-144 | decaying the scores never changes which variable `decide` picks |
| Heuristic.SortDistinct | CDCL/CDCL_Solver.py:214 | `sorted` of a list without repetition is strictly increasing with the same elements |
| Heuristic.SortedUnique | CDCL/CDCL_Solver.py:214 | two strictly increasing lists with the same elements are equal |
| Heuristic.UpdateVariables | CDCL/CDCL_Solver.py:209-214 | `self.var` is strictly increasing and holds exactly the variables with a trail entry |
| Heuristic.Total | CDCL/CDCL_Solver.py:35 | `self.total` is strictly increasing and holds exactly 1..N |
| Heuristic.AllAssigned | CDCL/CDCL_Solver.py:54 | the search loop stops exactly when the trail holds every variable 1..N and no other |
| Analysis.PyAt | CDCL/CDCL_Solver.py:147 | a Python index into the formula, negative ones counting from the end, yields a clause of the formula |
| Analysis.MaxLevelFor | CDCL/CDCL_Solver.py:163-165 | the accumulator rises to the highest level of an entry of the literal's variable, and to nothing else |
| Analysis.FindConflictLvl | CDCL/CDCL_Solver.py:160-166 | the highest level of any trail entry of a variable of the clause, or 0 when there is none |
| Analysis.AssertLevelFor | CDCL/CDCL_Solver.py:171-173 | the accumulator rises to the highest level below the conflict level of an entry of the literal's variable |
| Analysis.FindAssertLvl | CDCL/CDCL_Solver.py:168-174 | the highest level strictly below the conflict level of a trail entry of a variable of the clause, or 0; it is below the conflict level |
| Analysis.Hits | CDCL/CDCL_Solver.py:179-181 | the number of trail entries of the literal's variable at the level is 0 exactly when there is none, and 1 exactly when there is one |
| Analysis.FindUip | CDCL/CDCL_Solver.py:176-184 | the literal returned for resolution is 0 or a literal of the clause |
| Analysis.FindUipCount | CDCL/CDCL_Solver.py:176-184 | the count is 0 exactly when no (literal, entry) pair is at the conflict level, and 1 exactly when one such pair is |
| Analysis.FindUipPick | CDCL/CDCL_Solver.py:176-184 | the returned literal is the last literal of the clause at the conflict level with a non-`Given` antecedent, or 0 when there is none |
| Analysis.UipLoop | CDCL/CDCL_Solver.py:151-157 | a learned clause has a unique implication point at the conflict level; its level is the highest level below the conflict level among its variables, or 0; its literals come from the start clause or the formula |
| Analysis.AnalyzeConflict | CDCL/CDCL_Solver.py:146-158 | a missing or out-of-range key 0 fails; the result is `(-1, [])` exactly when the conflict level is 0; otherwise 0 <= level < conflict level, the clause has a unique implication point, the level is the highest level below the conflict level among its variables, and a positive level is that of an entry of a variable of the clause |
| Backjump.Above | CDCL/CDCL_Solver.py:199-204 | the listed entries are exactly the trail entries at level `b` or above, taken from the trail |
| Backjump.EntriesFrom | CDCL/CDCL_Solver.py:197-207 | `var_gr8_decision_lvl` lists the entries at level `b` and above; a key stays exactly when it was there and no listed entry makes it true; values are unchanged |
| Backjump.RemoveListed | CDCL/CDCL_Solver.py:192-193 | removing the listed entries one by one leaves exactly the entries below level `b`, in trail order |
| Backjump.ResetScores | CDCL/CDCL_Solver.py:192-194 | the score of each listed variable goes back to its baseline and every other score stays |
| Backjump.Remover | CDCL/CDCL_Solver.py:191-195 | the trail loses exactly the listed entries (as a multiset); key 0 and only key 0 is deleted; listed variables get their baseline scores |
| Backjump.Backtrack | CDCL/CDCL_Solver.py:186-189 | returns `b`; the trail becomes its entries below level `b`, in order; key 0 and the true literals of removed entries are deleted and other keys kept; removed variables get their baseline scores |
| Solver.AddLearnt | CDCL/CDCL_Solver.py:59-60 | the learned clause is in the formula afterwards, appended only when it was not there before |
| Solver.Preprocess | CDCL/CDCL_Solver.py:216-220 | the level goes up by one and the pushed entry is `decide`'s variable with `decide`'s sign at that level, with antecedent -1; the scores become those `decide` returns; a fresh variable is chosen whenever an unassigned variable has a non-negative score; the state stays well formed |
| Solver.Jump | CDCL/CDCL_Solver.py:64-65 | after the backjump to `b`, the trail is the part below `b`, followed by the level-0 entry of a unit learned clause with antecedent -1; key 0 and the literals of removed entries lose their antecedents, others keep them |
| Solver.Rescore | CDCL/CDCL_Solver.py:64-66 | variables taken off the trail get their original scores back, then every variable gains its occurrences in the learned clause, and its polarity their signed count |
| Solver.Learn | CDCL/CDCL_Solver.py:59-66 | the clause is added to the formula unless present, the level is `b`, the trail keeps its part below `b` and grows by at most one entry, the original scores and the conflict count stay, and the state stays well formed |
| Solver.LearnEffect | CDCL/CDCL_Solver.py:59-66 | after learning, the trail is the part below `b` plus the level-0 entry of a unit learned clause (antecedent -1); key 0 and the literals of removed entries lose their antecedents and every other key keeps its value; removed variables get their original scores back before every variable gains its occurrences in the learned clause, and its polarity their signed count |
| Solver.RootFromAnalysis | CDCL/CDCL_Solver.py:149-150 | an analysis returning -1 means the conflicting clause is falsified by level-0 entries alone |
| Solver.ConflictStep | CDCL/CDCL_Solver.py:56-66 | one conflict round counts the conflict and adds at most the learned clause; it stops with UNSAT exactly when the analysis returns `(-1, [])`, and then on a root conflict; it stops with an exception or fuel outcome exactly when the analysis does; otherwise it backjumps to the analysis level in a well-formed state |
| Solver.InitialScores | CDCL/CDCL_Solver.py:49-51 | every variable's frequency is its number of occurrences (either sign) in the formula and its polarity the positive count minus the negative count; the original scores are a copy and the conflict count is 0 |
| Solver.Setup | CDCL/CDCL_Solver.py:44-51 | the unit facts are on the trail at level 0, the formula is the `pre_del` result, the scores are the occurrence counts of that formula, the original scores are a copy of them, the conflict counter is 0, and the state is well formed with no variables listed |
| Solver.Propagate | CDCL/CDCL_Solver.py:52 | propagation keeps the state well formed and the formula, level and scores unchanged; a conflict names a falsified clause; without one, no proper clause is falsified and a non-empty trail is closed under unit propagation |
| Solver.WithVariables | CDCL/CDCL_Solver.py:67 | recomputing `self.var` keeps the state well formed |
| Solver.ExitAssigned | CDCL/CDCL_Solver.py:54 | when the loop condition fails, every variable 1..N and no other has a trail entry |
| Solver.Conflicts | CDCL/CDCL_Solver.py:56-66 | the inner loop either ends in a well-formed state where no proper clause is falsified and the trail is closed under unit propagation, or stops without SAT, with UNSAT only on a root conflict |
| Solver.SearchRound | CDCL/CDCL_Solver.py:54-67 | one decision round ends in a well-formed state with `self.var` recomputed, no proper clause falsified and the trail closed under unit propagation, or stops without SAT, with UNSAT only on a root conflict |
| Solver.EmptyClauseAsWritten | CDCL/CDCL_Solver.py:43-54 | with the scan as written, the formula `[[]]` over no variables keeps its empty clause, meets no conflict, and has all of its zero variables assigned, although the empty clause is falsified |
| Solver.Solve | CDCL/CDCL_Solver.py:43-68 | SAT with the empty map when `pre_del` leaves no clause; UNSAT when the first propagation meets a conflict, and whenever the formula holds the empty clause; otherwise SAT returns the antecedent map with every variable 1..N assigned, no proper clause falsified and the trail closed under unit propagation; UNSAT only on a conflict whose clause is falsified at level 0 |

## Left out

- `read_file` and the `__main__` block: file reading, `pathlib` and printing. `Solver.Solve` takes the clause list and N as parameters.
- `implications_count`: a statistic that nothing reads.
- `copy.deepcopy`: Dafny values are immutable, so every copy is implicit.
- Floating point: scores are mathematical reals. Python's halving and float rounding are not modelled, so the exact tie-breaking of `decide` after many halvings may differ from floats.
- Literal 0: formulas are assumed free of it (`NoZero`). The reader drops the terminating 0 of each line (`line[:-1]`, line 11), so only a malformed line could put a 0 inside a clause.
- Score indexing: variable 0 (Python index -1) is excluded by the variable bound `VarsWithin`.
- Propagation.DetectConflict: the contract does not say which falsified clause is reported when several are. The function itself visits clauses in the source's order.
- Propagation.DetectConflict: completeness is stated for proper clauses only. A clause holding a literal and its negation is never reported. A clause repeating a literal can stay falsified without a conflict, but the reader never builds one.
- Propagation.DetectAsWritten: closure under unit propagation is stated for a non-empty trail only. On an empty trail no clause is visited, so a unit clause's literal is not made true there; `solve` puts every unit clause on the trail first.
- Simplify.PreDel: the exact filter characterisation (`PreDelKeepsUnsatisfied`) is proved only for formulas without repeated clauses. The reader builds its clauses from a set, so this always holds.
- Analysis.FindUipPick: proved only for clauses without literal 0.
- Analysis.UipLoop: the resolution loop runs under fuel, and running out gives `Exhausted`. Its termination is not proved, and the code does not guarantee it.
- Backjump.Remover: a missing entry (ValueError), an out-of-range variable (IndexError) and a missing key 0 (KeyError) are preconditions, not outcomes.
- Backjump.Backtrack: the same preconditions as `Remover`.
- Solver.Solve: runs under fuel (`OutOfFuel`). There is no termination proof, and no proof that a SAT answer satisfies the formula or that an UNSAT answer is correct. It states the root-conflict shape of UNSAT, and the full assignment without falsified proper clauses on SAT.
- Solver.Solve: the precondition `FormulaWithinVars` asks that every variable be one of 1..N. The reader sets N to the number of distinct variables (lines 13-14). For variables {1, 3}, N is 2, and scoring literal 3 raises IndexError at line 92. Such inputs are excluded, not modelled as `Raised`.

## Findings

| source | as written | input that shows it | evidently intended | confidence | as-written member | corrected member |
|---|---|---|---|---|---|---|
| CDCL/CDCL_Solver.py:95-110 | `detect_conflict` visits the clauses only inside the loop over trail entries, so with an empty trail it returns `False` even when the formula holds the empty clause | the DIMACS file `p cnf 0 1` / `0`: the formula is `[[]]` with N = 0; no unit clause, `pre_del` keeps `[[]]`, no conflict is found, `self.var == self.total == []`, and `solve` returns `(True, {})` | an empty clause is a conflict, so the answer is UNSAT | not executed | Propagation.DetectAsWritten, with Solver.EmptyClauseAsWritten | Propagation.DetectConflict, with Solver.Solve (UNSAT whenever the formula holds the empty clause) |
