/** The generic driver of `Algorithm` (pymoo/model/algorithm.py): choosing the
    termination criterion in `initialize`, the `_solve` loop and the generation
    counter it advances through `next`, and the result `solve` hands back.
    The algorithm-specific hooks `_initialize` and `_next`, and the criterion's
    `do_continue`, are not visible here; they are parameters of the model. */
module Driver {
  import opened Wrappers
  import opened Population
  import opened Optimum
  import opened Outcome

  /** The exceptions the driver can raise. */
  datatype DriverError =
    | NoTerminationCriterion  // `_solve` finds no criterion and raises
    | GenerationCounterUnset  // `next` adds 1 to an `n_gen` that is `None`
    | EmptyPopulation         // `_set_optimum` asks for the argmin of an empty `CV`

  /** The run-dependent attributes of an algorithm object that the driver reads
      and writes; `T` is the type of termination criteria. The optimum
      `self.opt` is not a field: `_set_optimum` always makes it a function of
      the population, given by `StoredOptimum`. */
  datatype Algorithm<T> = Algorithm(
    termination: Option<T>,
    defaultTermination: Option<T>,
    returnLeastInfeasible: bool,
    nGen: Option<nat>,
    pop: Option<Pop>)

  /** `Algorithm.__init__`: the criterion given to the constructor (if any)
      and the reporting flag; nothing of a run exists yet. The base class sets
      no default criterion; `defaultTermination` stands for the one a subclass
      assigns after calling the constructor, and is `None` for the base class. */
  function Create<T>(termination: Option<T>, defaultTermination: Option<T>, returnLeastInfeasible: bool): (r: Algorithm<T>)
    ensures r.termination == termination && r.defaultTermination == defaultTermination
    ensures r.returnLeastInfeasible == returnLeastInfeasible
    ensures r.nGen.None? && r.pop.None?
  {
    Algorithm(termination, defaultTermination, returnLeastInfeasible, None, None)
  }

  /** `initialize`: a criterion already held is kept, else the argument is
      taken, else the default; the run-dependent state is reset. */
  function Initialize<T>(a: Algorithm<T>, termination: Option<T>): (r: Algorithm<T>)
    ensures a.termination.Some? ==> r.termination == a.termination
    ensures a.termination.None? && termination.Some? ==> r.termination == termination
    ensures a.termination.None? && termination.None? ==> r.termination == a.defaultTermination
    ensures r.termination.None? <==> a.termination.None? && termination.None? && a.defaultTermination.None?
    ensures r.nGen.None? && r.pop.None?
    ensures r.defaultTermination == a.defaultTermination && r.returnLeastInfeasible == a.returnLeastInfeasible
  {
    var chosen :=
      if a.termination.Some? then a.termination
      else if termination.Some? then termination
      else a.defaultTermination;
    a.(termination := chosen, nGen := None, pop := None)
  }

  /** Once a criterion has been chosen, a later `initialize` cannot replace it,
      whatever criterion it is given. */
  lemma ReinitializeKeepsCriterion<T>(a: Algorithm<T>, first: Option<T>, second: Option<T>)
    requires Initialize(a, first).termination.Some?
    ensures Initialize(Initialize(a, first), second).termination == Initialize(a, first).termination
  {
  }

  /** The state `_set_optimum` leaves behind: a counter and a non-empty
      population, whose optimum `filter_optimum` can compute. */
  predicate Consistent<T>(a: Algorithm<T>)
  {
    a.nGen.Some? && a.pop.Some? && |a.pop.value| > 0
  }

  /** `self.opt` after `_set_optimum`: `filter_optimum(pop, least_infeasible=True)`,
      always a single individual of the population. */
  function StoredOptimum<T>(a: Algorithm<T>): (r: Pop)
    requires Consistent(a)
    ensures |r| == 1 && r[0] in a.pop.value
    ensures Some(r) == FilterOptimum(a.pop.value, true).value
  {
    FilterOptimum(a.pop.value, true).value.value
  }

  /** Install a freshly produced population; setting its optimum raises
      exactly when the population is empty (see `FilterOptimum`'s contract:
      with `least_infeasible=True` it fails exactly on an empty population). */
  function SetPopulation<T>(a: Algorithm<T>, p: Pop): (r: Result<Algorithm<T>, DriverError>)
    ensures r.Failure? <==> |p| == 0
    ensures r.Failure? ==> r.error == EmptyPopulation
    ensures r.Success? ==> r.value == a.(pop := Some(p)) && |p| > 0
  {
    if |p| == 0 then Failure(EmptyPopulation) else Success(a.(pop := Some(p)))
  }

  /** The failure condition of `SetPopulation` is the one under which
      `filter_optimum(pop, least_infeasible=True)` raises in `_set_optimum`. */
  lemma SetPopulationFailsAsFilterOptimum<T>(a: Algorithm<T>, p: Pop)
    ensures SetPopulation(a, p).Failure? <==> FilterOptimum(p, true).Failure?
  {
  }

  /** The start of `_solve` once a criterion is known: set the counter to 1,
      let `_initialize` (the parameter `init`, which sees that counter) produce
      the first population, and set the optimum. */
  function Start<T>(a: Algorithm<T>, init: Algorithm<T> -> Pop): (r: Result<Algorithm<T>, DriverError>)
    ensures r.Failure? <==> |init(a.(nGen := Some(1)))| == 0
    ensures r.Failure? ==> r.error == EmptyPopulation
    ensures r.Success? ==> r.value.nGen == Some(1) && Consistent(r.value)
    ensures r.Success? ==> r.value.pop == Some(init(a.(nGen := Some(1))))
    ensures r.Success? ==>
              && r.value.termination == a.termination
              && r.value.defaultTermination == a.defaultTermination
              && r.value.returnLeastInfeasible == a.returnLeastInfeasible
  {
    var started := a.(nGen := Some(1));
    SetPopulation(started, init(started))
  }

  /** `next`: add one to the generation counter, let `_next` (the parameter
      `step`, which sees the incremented counter) produce the new population,
      then set the optimum. */
  function Next<T>(a: Algorithm<T>, step: Algorithm<T> -> Pop): (r: Result<Algorithm<T>, DriverError>)
    ensures a.nGen.None? <==> r == Failure(GenerationCounterUnset)
    ensures a.nGen.Some? ==> (r.Failure? <==> |step(a.(nGen := Some(a.nGen.value + 1)))| == 0)
    ensures r.Failure? && a.nGen.Some? ==> r.error == EmptyPopulation
    ensures r.Success? ==> r.value.nGen == Some(a.nGen.value + 1)
    ensures r.Success? ==> Consistent(r.value)
    ensures r.Success? ==> r.value.pop == Some(step(a.(nGen := Some(a.nGen.value + 1))))
    ensures r.Success? ==>
              && r.value.termination == a.termination
              && r.value.defaultTermination == a.defaultTermination
              && r.value.returnLeastInfeasible == a.returnLeastInfeasible
  {
    match a.nGen
    case None => Failure(GenerationCounterUnset)
    case Some(n) =>
      var counted := a.(nGen := Some(n + 1));
      SetPopulation(counted, step(counted))
  }

  /** `k` successive calls of `next`, stopping at the first exception: the
      reference the loop below is measured against. */
  ghost function Iterate<T>(a: Algorithm<T>, step: Algorithm<T> -> Pop, k: nat): Result<Algorithm<T>, DriverError>
    decreases k
  {
    if k == 0 then Success(a)
    else
      match Next(a, step)
      case Failure(e) => Failure(e)
      case Success(b) => Iterate(b, step, k - 1)
  }

  /** One more step of `Iterate` from `a` is the same number of steps from the
      state `next` leads `a` to. */
  lemma IterateUnfolds<T>(a: Algorithm<T>, b: Algorithm<T>, step: Algorithm<T> -> Pop, n: nat)
    requires Next(a, step) == Success(b)
    ensures Iterate(a, step, n + 1) == Iterate(b, step, n)
  {
  }

  /** Why a run of the loop ended: the criterion said stop, or the model's
      bound on the number of generations was reached first. */
  datatype Stop = Terminated | OutOfFuel

  /** The state a loop ends in, and how many times it called `next`. */
  datatype Run<T> = Run(state: Algorithm<T>, generations: nat, stop: Stop)

  /** `while termination.do_continue(self): self.next()`, for at most `fuel`
      iterations. */
  function Loop<T(!new)>(a: Algorithm<T>, term: T, doContinue: (T, Algorithm<T>) -> bool,
                         step: Algorithm<T> -> Pop, fuel: nat): (r: Result<Run<T>, DriverError>)
    decreases fuel
    ensures a.nGen.Some? && (forall s :: |step(s)| > 0) ==> r.Success?
    ensures r.Success? ==> r.value.generations <= fuel
    ensures r.Success? && r.value.generations == 0 ==> r.value.state == a
    ensures r.Success? && a.nGen.Some? ==> r.value.state.nGen == Some(a.nGen.value + r.value.generations)
    ensures r.Success? && r.value.generations > 0 ==> Consistent(r.value.state)
    ensures r.Success? && r.value.stop == Terminated ==> !doContinue(term, r.value.state)
    ensures r.Success? && r.value.stop == OutOfFuel ==>
              r.value.generations == fuel && doContinue(term, r.value.state)
    ensures r.Success? ==>
              && r.value.state.termination == a.termination
              && r.value.state.defaultTermination == a.defaultTermination
              && r.value.state.returnLeastInfeasible == a.returnLeastInfeasible
    ensures r.Failure? ==> r.error == (if a.nGen.None? then GenerationCounterUnset else EmptyPopulation)
  {
    if !doContinue(term, a) then Success(Run(a, 0, Terminated))
    else if fuel == 0 then Success(Run(a, 0, OutOfFuel))
    else
      match Next(a, step)
      case Failure(e) => Failure(e)
      case Success(b) =>
        match Loop(b, term, doContinue, step, fuel - 1)
        case Failure(e) => Failure(e)
        case Success(run) => Success(run.(generations := run.generations + 1))
  }

  /** A run of `Loop` that called `next` at all first found the criterion
      holding, called `next` successfully, and then ran one generation less. */
  lemma LoopSteps<T(!new)>(a: Algorithm<T>, term: T, doContinue: (T, Algorithm<T>) -> bool,
                           step: Algorithm<T> -> Pop, fuel: nat, run: Run<T>)
    requires Loop(a, term, doContinue, step, fuel) == Success(run)
    requires run.generations > 0
    ensures fuel > 0 && doContinue(term, a) && Next(a, step).Success?
    ensures Loop(Next(a, step).value, term, doContinue, step, fuel - 1) == Success(run.(generations := run.generations - 1))
  {
  }

  /** `Loop` calls `next` only while the criterion says to continue: its final
      state is `Iterate` after as many steps as it reports, and the criterion
      held at every state before that one. */
  lemma LoopFollowsIterate<T(!new)>(a: Algorithm<T>, term: T, doContinue: (T, Algorithm<T>) -> bool,
                                    step: Algorithm<T> -> Pop, fuel: nat)
    ensures var r := Loop(a, term, doContinue, step, fuel);
            r.Success? ==>
              && Iterate(a, step, r.value.generations) == Success(r.value.state)
              && forall k :: 0 <= k < r.value.generations ==>
                   Iterate(a, step, k).Success? && doContinue(term, Iterate(a, step, k).value)
  {
    var r := Loop(a, term, doContinue, step, fuel);
    if r.Success? {
      RunFollowsIterate(a, term, doContinue, step, fuel, r.value);
    }
  }

  /** `LoopFollowsIterate` for one given run, by induction on `fuel`. */
  lemma {:induction false} RunFollowsIterate<T(!new)>(a: Algorithm<T>, term: T, doContinue: (T, Algorithm<T>) -> bool,
                                                      step: Algorithm<T> -> Pop, fuel: nat, run: Run<T>)
    requires Loop(a, term, doContinue, step, fuel) == Success(run)
    ensures Iterate(a, step, run.generations) == Success(run.state)
    ensures forall k :: 0 <= k < run.generations ==>
              Iterate(a, step, k).Success? && doContinue(term, Iterate(a, step, k).value)
    decreases fuel
  {
    if run.generations == 0 {
      assert Iterate(a, step, 0) == Success(a);
    } else {
      LoopSteps(a, term, doContinue, step, fuel, run);
      var b := Next(a, step).value;
      var n := run.generations - 1;
      RunFollowsIterate(b, term, doContinue, step, fuel - 1, run.(generations := n));
      IterateUnfolds(a, b, step, n);
      forall k | 0 <= k < n + 1
        ensures Iterate(a, step, k).Success? && doContinue(term, Iterate(a, step, k).value)
      {
        if k == 0 {
          assert Iterate(a, step, 0) == Success(a);
        } else {
          IterateUnfolds(a, b, step, k - 1);
        }
      }
    }
  }

  /** The run from `a` reaches `k` steps with the criterion saying continue at
      every state up to and including the k-th, and the next `next` fails. */
  ghost predicate FailsAt<T>(a: Algorithm<T>, term: T, doContinue: (T, Algorithm<T>) -> bool,
                             step: Algorithm<T> -> Pop, k: nat)
  {
    && (forall j: nat :: j <= k ==> Iterate(a, step, j).Success? && doContinue(term, Iterate(a, step, j).value))
    && Iterate(a, step, k + 1).Failure?
  }

  /** With the counter set, `Loop` fails exactly when some `next` that the
      loop actually calls, within the bound, raises; a population `_next`
      would produce from a state the loop never steps from does not matter. */
  lemma LoopFailsExactlyOnReachedFailure<T(!new)>(a: Algorithm<T>, term: T, doContinue: (T, Algorithm<T>) -> bool,
                                                  step: Algorithm<T> -> Pop, fuel: nat)
    requires a.nGen.Some?
    ensures Loop(a, term, doContinue, step, fuel).Failure? <==>
              exists k: nat :: k < fuel && FailsAt(a, term, doContinue, step, k)
  {
    var r := Loop(a, term, doContinue, step, fuel);
    if r.Failure? {
      var k := LoopFailureReached(a, term, doContinue, step, fuel);
    } else {
      LoopFollowsIterate(a, term, doContinue, step, fuel);
      if k: nat :| k < fuel && FailsAt(a, term, doContinue, step, k) {
        assert false;
      }
    }
  }

  /** A failing `Loop` with the counter set names the step at which it
      failed, by induction on `fuel`. */
  lemma {:induction false} LoopFailureReached<T(!new)>(a: Algorithm<T>, term: T, doContinue: (T, Algorithm<T>) -> bool,
                                                       step: Algorithm<T> -> Pop, fuel: nat) returns (k: nat)
    requires a.nGen.Some? && Loop(a, term, doContinue, step, fuel).Failure?
    ensures k < fuel && FailsAt(a, term, doContinue, step, k)
    decreases fuel
  {
    assert doContinue(term, a) && fuel > 0;
    assert Iterate(a, step, 0) == Success(a);
    match Next(a, step)
    case Failure(_) =>
      k := 0;
    case Success(b) =>
      assert Loop(b, term, doContinue, step, fuel - 1).Failure?;
      var k' := LoopFailureReached(b, term, doContinue, step, fuel - 1);
      k := k' + 1;
      IterateUnfolds(a, b, step, k' + 1);
      forall j: nat | j <= k
        ensures Iterate(a, step, j).Success? && doContinue(term, Iterate(a, step, j).value)
      {
        if j > 0 {
          IterateUnfolds(a, b, step, j - 1);
        }
      }
  }

  /** What `solve` returns: the final run and the reported optimum. */
  datatype Solution<T> = Solution(run: Run<T>, report: Report)

  /** `solve` (through `_solve`): refuse to run without a criterion, start,
      loop, and derive the reported optimum with the corrected reporting rule
      (which agrees with the as-written one on every state `_solve` leaves, see
      `AsWrittenReportAgreesOnConsistentStates`). */
  function Solve<T(!new)>(a: Algorithm<T>, init: Algorithm<T> -> Pop, doContinue: (T, Algorithm<T>) -> bool,
                          step: Algorithm<T> -> Pop, fuel: nat): (r: Result<Solution<T>, DriverError>)
    ensures a.termination.None? <==> r == Failure(NoTerminationCriterion)
    ensures a.termination.Some? && |init(a.(nGen := Some(1)))| > 0 && (forall s :: |step(s)| > 0) ==> r.Success?
    ensures r.Failure? && a.termination.Some? ==> r.error == EmptyPopulation
    ensures r.Success? ==> Start(a, init).Success?
    ensures r.Success? ==> r.value.run.generations <= fuel
    ensures r.Success? ==> r.value.run.state.nGen == Some(1 + r.value.run.generations)
    ensures r.Success? ==> Consistent(r.value.run.state)
    ensures r.Success? && r.value.run.stop == Terminated ==>
              !doContinue(a.termination.value, r.value.run.state)
    ensures r.Success? && r.value.run.stop == OutOfFuel ==>
              r.value.run.generations == fuel && doContinue(a.termination.value, r.value.run.state)
    ensures r.Success? ==> r.value.report.reported == r.value.report.opt
    ensures r.Success? ==>
              r.value.report.opt == ResultOptimum(StoredOptimum(r.value.run.state), a.returnLeastInfeasible)
  {
    match a.termination
    case None => Failure(NoTerminationCriterion)
    case Some(term) =>
      match Start(a, init)
      case Failure(e) => Failure(e)
      case Success(s) =>
        match Loop(s, term, doContinue, step, fuel)
        case Failure(e) => Failure(e)
        case Success(run) =>
          Success(Solution(run, ResultReport(StoredOptimum(run.state), a.returnLeastInfeasible)))
  }

  /** The run inside `solve` starts from the state `Start` produces and calls
      `next` only while the criterion says to continue. */
  lemma SolveFollowsIterate<T(!new)>(a: Algorithm<T>, init: Algorithm<T> -> Pop, doContinue: (T, Algorithm<T>) -> bool,
                                     step: Algorithm<T> -> Pop, fuel: nat)
    ensures var r := Solve(a, init, doContinue, step, fuel);
            r.Success? ==>
              && Start(a, init).Success?
              && Iterate(Start(a, init).value, step, r.value.run.generations) == Success(r.value.run.state)
              && forall k :: 0 <= k < r.value.run.generations ==>
                   Iterate(Start(a, init).value, step, k).Success?
                   && doContinue(a.termination.value, Iterate(Start(a, init).value, step, k).value)
  {
    var r := Solve(a, init, doContinue, step, fuel);
    if r.Success? {
      LoopFollowsIterate(Start(a, init).value, a.termination.value, doContinue, step, fuel);
    }
  }

  /** On every state `_set_optimum` leaves, the stored optimum is a single
      individual, so reading the reported values from it (as written) or from
      `res.opt` (corrected) gives the same report. */
  lemma AsWrittenReportAgreesOnConsistentStates<T>(a: Algorithm<T>, returnLeastInfeasible: bool)
    requires Consistent(a)
    ensures ReportAsWritten(StoredOptimum(a), returnLeastInfeasible) == ResultReport(StoredOptimum(a), returnLeastInfeasible)
  {
    var opt := StoredOptimum(a);
    assert opt == [opt[0]];
    ReportsAgreeOnSingletons(opt[0], returnLeastInfeasible);
  }

  /** With a criterion, `solve` fails exactly when `_initialize` produces an
      empty population or some `next` the loop actually calls raises. */
  lemma SolveFailsExactlyOnReachedFailure<T(!new)>(a: Algorithm<T>, init: Algorithm<T> -> Pop,
                                                   doContinue: (T, Algorithm<T>) -> bool,
                                                   step: Algorithm<T> -> Pop, fuel: nat)
    requires a.termination.Some?
    ensures Solve(a, init, doContinue, step, fuel).Failure? <==>
              || Start(a, init).Failure?
              || exists k: nat :: k < fuel && FailsAt(Start(a, init).value, a.termination.value, doContinue, step, k)
  {
    if Start(a, init).Success? {
      LoopFailsExactlyOnReachedFailure(Start(a, init).value, a.termination.value, doContinue, step, fuel);
    }
  }

  /** From construction through `initialize`, `solve` raises for want of a
      criterion exactly when neither the constructor, nor `initialize`, nor the
      default supplied one. */
  lemma SolveNeedsSomeCriterion<T(!new)>(own: Option<T>, default: Option<T>, returnLeastInfeasible: bool,
                                         termination: Option<T>, init: Algorithm<T> -> Pop,
                                         doContinue: (T, Algorithm<T>) -> bool, step: Algorithm<T> -> Pop, fuel: nat)
    ensures Solve(Initialize(Create(own, default, returnLeastInfeasible), termination), init, doContinue, step, fuel)
              == Failure(NoTerminationCriterion)
            <==> own.None? && termination.None? && default.None?
  {
  }

  /** End to end: the optimum `solve` reports is `filter_optimum` applied to the
      final population with the algorithm's `return_least_infeasible` flag. */
  lemma SolveReportsOptimumOfFinalPopulation<T(!new)>(a: Algorithm<T>, init: Algorithm<T> -> Pop,
                                                      doContinue: (T, Algorithm<T>) -> bool,
                                                      step: Algorithm<T> -> Pop, fuel: nat)
    ensures var r := Solve(a, init, doContinue, step, fuel);
            r.Success? ==>
              r.value.report.opt == FilterOptimum(r.value.run.state.pop.value, a.returnLeastInfeasible).value
  {
    var r := Solve(a, init, doContinue, step, fuel);
    if r.Success? {
      var p := r.value.run.state.pop.value;
      var flag := a.returnLeastInfeasible;
      if AnyFeasible(p) {
        var i :| IsBestFeasible(p, i) && FilterOptimum(p, true) == Success(Some([p[i]]));
        var k :| IsBestFeasible(p, k) && FilterOptimum(p, flag) == Success(Some([p[k]]));
        BestFeasibleIsUnique(p, i, k);
        assert AnyFeasible([p[i]]) by {
          assert [p[i]][0].feasible;
        }
      } else if flag {
        var i :| IsLeastInfeasible(p, i) && FilterOptimum(p, true) == Success(Some([p[i]]));
        assert !AnyFeasible([p[i]]);
        var j :| IsLeastInfeasible([p[i]], j) && ResultOptimum([p[i]], true) == Some([[p[i]][j]]);
      }
    }
  }
}
