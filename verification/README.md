# pymoo `Algorithm` driver — a Dafny model

This project models the generic driver of pymoo's optimisers, the `Algorithm`
class and the `filter_optimum` function in `pymoo/model/algorithm.py`, and
proves properties of it:

- **Optimum selection** (`filter_optimum`, single-objective). It restricts the
  population to its feasible individuals. When some are feasible, it returns
  the one with the smallest `F`, taking the first on ties as `np.argmin`
  does. Otherwise it returns the individual with the least `CV` over the whole
  population, or `None`, depending on `least_infeasible`. The winner is
  wrapped as a one-element population.
- **The reported optimum** (`solve`). An empty stored optimum becomes `None`.
  A stored optimum without a feasible member becomes its least infeasible
  member when `return_least_infeasible` is set, and `None` otherwise.
- **The generation counter** (`initialize`, `_solve`, `next`). The
  termination criterion is chosen by precedence: the constructor's, then the
  one given to `initialize`, then the algorithm's default. `_solve` raises when
  none exists. Otherwise it sets `n_gen` to 1, initialises, and calls `next`
  while the criterion says to continue. Each `next` adds exactly 1, so a run
  with m iterations ends with `n_gen = 1 + m`.

Modules: `Wrappers` (`Option` for `None`-or-value, `Result` for value-or-exception),
`Arrays` (numpy's `argmin` and boolean-mask indexing), `Population`
(individual records), `Optimum` (`filter_optimum`), `Outcome` (the result
fields of `solve`) and `Driver` (the algorithm state and its run).

An individual is a record `(feasible, f, cv)`. No link between `feasible` and
`cv` is assumed. The hooks `_initialize` and `_next`, and the termination
criterion's `do_continue`, are algorithm-specific. They are passed to `Solve`
as function parameters (`init`, `step`, `doContinue`) and stay uninterpreted.

## Model

| member | source | states |
|---|---|---|
| `Arrays.ArgMin` | pymoo/model/algorithm.py:318 | `np.argmin` returns a position holding a minimum that no earlier position reaches (first occurrence on ties) |
| `Arrays.ArgMinIsUnique` | pymoo/model/algorithm.py:318 | the first-argmin property picks out exactly one position, the one `ArgMin` returns |
| `Arrays.TrueIndices` | pymoo/model/algorithm.py:305 | boolean-mask indexing gathers exactly the positions where the mask holds, in increasing order |
| `Optimum.FilterOptimum` | pymoo/model/algorithm.py:303-332 | the result meets the four-case specification (best feasible / `None` / exception on empty population / least infeasible); it raises exactly when asked for the least infeasible of an empty population; a selected individual comes as a one-element population drawn from the input |
| `Optimum.FilterOptimumIsTheOnlySpecOutcome` | pymoo/model/algorithm.py:303-332 | an outcome meets the specification if and only if it is the one `FilterOptimum` computes, so the selection is fully determined |
| `Optimum.FeasibleOptimumIsMinimalMember` | pymoo/model/algorithm.py:305-318 | with a feasible individual present, the optimum is a single feasible member of the population whose `F` is no larger than any feasible member's, whatever the flag |
| `Optimum.InfeasibleOptimum` | pymoo/model/algorithm.py:320-330 | with nobody feasible, the result is `None` without the flag; with it on a non-empty population, it is a single member whose `CV` is no larger than anybody's |
| `Outcome.ResultOptimum` | pymoo/model/algorithm.py:187-202 | `res.opt` is `None` exactly when the stored optimum is empty or has no feasible member and the flag is unset; it is the stored optimum when a member is feasible, and otherwise its least infeasible member |
| `Outcome.ReportAsWritten` | pymoo/model/algorithm.py:204-217 | as written, the reported `X`, `F`, `CV`, `G` come from the stored optimum, not from `res.opt` |
| `Outcome.ReportAsWrittenDisagrees` | pymoo/model/algorithm.py:195-210 | two infeasible individuals with the flag set: `res.opt` is the least infeasible one, but both are reported |
| `Outcome.ResultReport` | pymoo/model/algorithm.py:201-217 | corrected: the reported values are those of `res.opt`; without a feasible member that is exactly one individual, the least infeasible |
| `Outcome.ReportsAgreeOnSingletons` | pymoo/model/algorithm.py:187-210 | for a stored optimum of one individual, the as-written and the corrected reporting rule give the same `res.opt` and the same reported values |
| `Driver.Create` | pymoo/model/algorithm.py:63-112 | the constructor stores the given criterion and the reporting flag; no counter and no population exist yet; the base class has no default criterion (line 96), and the `defaultTermination` argument stands for the one a subclass assigns after the constructor |
| `Driver.Initialize` | pymoo/model/algorithm.py:141-167 | a criterion already held is kept, else the argument, else the default; none remains exactly when all three are missing; counter and population are reset |
| `Driver.ReinitializeKeepsCriterion` | pymoo/model/algorithm.py:141-146 | once a criterion is chosen, a second `initialize` cannot replace it |
| `Driver.StoredOptimum` | pymoo/model/algorithm.py:288-289 | `self.opt` is `filter_optimum(pop, least_infeasible=True)`: a single member of the current population |
| `Driver.SetPopulation` | pymoo/model/algorithm.py:288-289 | installing a produced population raises exactly when it is empty, the argmin error of `_set_optimum`; otherwise only the population changes |
| `Driver.SetPopulationFailsAsFilterOptimum` | pymoo/model/algorithm.py:288-289 | installing a population fails exactly when `filter_optimum(pop, least_infeasible=True)` raises on it |
| `Driver.Start` | pymoo/model/algorithm.py:252-254 | `_initialize` sees `n_gen = 1`; the start fails exactly when it produces an empty population, and otherwise leaves `n_gen = 1`, that population and the criterion, default and flag unchanged |
| `Driver.Next` | pymoo/model/algorithm.py:225-233 | raises exactly when `n_gen` is unset; otherwise `_next` sees `n_gen` plus 1, and the call fails exactly when it produces an empty population; on success `n_gen` grew by exactly 1, the new population is installed, and criterion, default and flag are unchanged |
| `Driver.Loop` | pymoo/model/algorithm.py:257-259 | never fails when `n_gen` is set and every `_next` produces individuals; after m calls of `next` the counter has grown by exactly m, m is at most the bound; the loop stops only when the criterion says stop (or the bound is hit while it still says continue); criterion, default and flag are unchanged; errors are the counter or the empty population |
| `Driver.LoopFollowsIterate` | pymoo/model/algorithm.py:257-259 | the loop's final state is `next` applied as many times as it reports, and the criterion said continue at every state before it |
| `Driver.LoopFailsExactlyOnReachedFailure` | pymoo/model/algorithm.py:258-259 | with the counter set, the loop fails exactly when, within the bound, it reaches a state where the criterion says continue and the `next` it then calls raises |
| `Driver.Solve` | pymoo/model/algorithm.py:245-262 | raises `NoTerminationCriterion` exactly when no criterion is set; never fails when `_initialize` and every `_next` produce individuals, and otherwise fails only on an empty population; ends with `n_gen = 1 +` the number of iterations (at most the bound), stopped by the criterion or the bound, and reports `res.opt` derived from the final stored optimum |
| `Driver.SolveFollowsIterate` | pymoo/model/algorithm.py:245-259 | the run inside `solve` is `next` iterated from the started state, continuing exactly while the criterion says so |
| `Driver.SolveFailsExactlyOnReachedFailure` | pymoo/model/algorithm.py:245-259 | with a criterion, `solve` fails exactly when `_initialize` produces an empty population or the loop reaches a `next` that raises |
| `Driver.AsWrittenReportAgreesOnConsistentStates` | pymoo/model/algorithm.py:204-210 | on every state `_set_optimum` leaves, reading the values from `self.opt` (as written) or from `res.opt` (corrected) gives the same report |
| `Driver.SolveNeedsSomeCriterion` | pymoo/model/algorithm.py:141-146 | from construction through `initialize`, `solve` raises for want of a criterion exactly when the constructor, the argument and the default all lack one |
| `Driver.SolveReportsOptimumOfFinalPopulation` | pymoo/model/algorithm.py:187-202 | end to end, the reported optimum equals `filter_optimum` of the final population with the algorithm's `return_least_infeasible` flag |

## Left out

- The multi-objective branch of `filter_optimum` (lines 313-315): it calls non-dominated sorting, whose module is not part of this model. `F` is a single objective.
- `filter_optimum` on an empty population: the model assumes the feasibility mask of an empty population is empty. Whether `pop.get("feasible")[:, 0]` itself fails there depends on `Population`, which is not part of this model.
- Real numbers have no NaN, so numpy's treatment of NaN in `argmin` is not modelled.
- Display, callbacks and the `save_history` deep copy in `_each_iteration` (lines 265-286): observers with no result the driver uses.
- Timing in `solve` (lines 175, 181-182) and the seeding of numpy's global random generator in `initialize` (lines 148-152): clock and global random state.
- The `pf`, `evaluator`, `verbose`, `save_history`, `problem` and `history` attributes, and `res.pop`, `res.problem`, `res.pf`, `res.history`: they are stored and copied but take no part in the logic modelled.
- Unwrapping a one-solution single-objective result into 1-d arrays (lines 212-214): it changes an array's shape, not which individual is reported.
- `Evaluator`, `Result`, `Population`, `Individual` and `FunctionLoader`: their files are not part of this model.
- `_initialize`, `_next` and the criterion's `do_continue` are abstract in this file. They are uninterpreted parameters. `_initialize` and `_next` are modelled as producing a population from the algorithm state; neither can change other attributes. `do_continue` is modelled as a pure function of the criterion and the algorithm state; it cannot change either of them, although the source passes it the algorithm object itself (line 258).
- `finalize` / `_finalize` (lines 238-239, 291-292): a no-op in the base class.
- Driver.Loop: the source loop has no bound. The model runs it for at most `fuel` iterations and reports `OutOfFuel` when the criterion still says continue. Runs longer than `fuel` are not modelled past that point.
- Driver.Solve: it uses the corrected reporting rule (`Outcome.ResultReport`) rather than the as-written one; see Findings. `Driver.AsWrittenReportAgreesOnConsistentStates` shows the two agree on every state the base class produces.
- `self.opt` is not stored: the model derives it from the population (`Driver.StoredOptimum`), as the base `_set_optimum` does. A subclass that overrides `_set_optimum`, or a `_next` that sets `self.opt` itself, is not modelled.

## Findings

| source | as written | input that shows it | evidently intended | confidence | as-written member | corrected member |
|---|---|---|---|---|---|---|
| pymoo/model/algorithm.py:210 | the reported `X`, `F`, `CV`, `G` are read from `self.opt`, not from the `opt` that was just filtered and stored in `res.opt` | a stored optimum holding two infeasible individuals (`CV` 2 and 1) with `return_least_infeasible` set: `res.opt` holds only the `CV` 1 individual, but the values of both are reported | read the values from `opt`, so they describe `res.opt` | low, not executed; the base `_set_optimum` always stores one individual, as `Driver.AsWrittenReportAgreesOnConsistentStates` shows, so only a subclass that stores a larger optimum shows it | `Outcome.ReportAsWritten`, `Outcome.ReportAsWrittenDisagrees` | `Outcome.ResultReport` |
