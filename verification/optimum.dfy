/** `filter_optimum` (pymoo/model/algorithm.py), single-objective branch: pick
    the best feasible individual, else optionally the least infeasible one. */
module Optimum {
  import opened Wrappers
  import opened Arrays
  import opened Population

  /** The exception `filter_optimum` raises: `np.argmin` of an empty `CV`
      array, reached when no individual is feasible because there is none. */
  datatype OptimumError = ArgMinOfEmpty

  /** Position `i` holds the individual the feasible branch must select:
      feasible, with an `F` no larger than any feasible individual's, and
      strictly smaller than that of every feasible individual before it. */
  predicate IsBestFeasible(pop: Pop, i: int)
  {
    && 0 <= i < |pop|
    && pop[i].feasible
    && (forall j :: 0 <= j < |pop| && pop[j].feasible ==> pop[i].f <= pop[j].f)
    && (forall j :: 0 <= j < i && pop[j].feasible ==> pop[j].f > pop[i].f)
  }

  /** Position `i` holds the least infeasible individual: a `CV` no larger
      than anybody's in the whole population, first on ties. */
  predicate IsLeastInfeasible(pop: Pop, i: int)
  {
    && 0 <= i < |pop|
    && (forall j :: 0 <= j < |pop| ==> pop[i].cv <= pop[j].cv)
    && (forall j :: 0 <= j < i ==> pop[j].cv > pop[i].cv)
  }

  /** What `filter_optimum` promises, stated without reference to how it
      computes: the outcome for each of its four cases. */
  ghost predicate OptimumSpec(pop: Pop, leastInfeasible: bool, r: Result<Option<Pop>, OptimumError>)
  {
    if AnyFeasible(pop) then
      exists i :: IsBestFeasible(pop, i) && r == Success(Some([pop[i]]))
    else if !leastInfeasible then
      r == Success(None)
    else if |pop| == 0 then
      r == Failure(ArgMinOfEmpty)
    else
      exists i :: IsLeastInfeasible(pop, i) && r == Success(Some([pop[i]]))
  }

  /** The winner `filter_optimum` picks among the feasible individuals is the
      best feasible one of the whole population. */
  lemma ArgMinOfFeasibleIsBest(pop: Pop, idx: seq<nat>, a: nat)
    requires idx == TrueIndices(FeasibleMask(pop))
    requires 0 <= a < |idx|
    requires IsFirstArgMin(Objectives(Gather(pop, idx)), a)
    ensures IsBestFeasible(pop, idx[a])
  {
    var ret := Gather(pop, idx);
    var w := idx[a];
    forall j | 0 <= j < |pop| && pop[j].feasible
      ensures pop[w].f <= pop[j].f
      ensures j < w ==> pop[j].f > pop[w].f
    {
      assert FeasibleMask(pop)[j];
      var k :| 0 <= k < |idx| && idx[k] == j;
      assert Objectives(ret)[k] == pop[j].f;
      assert Objectives(ret)[a] == pop[w].f;
      if j < w && k >= a {
        assert false;
      }
    }
  }

  /** The least-infeasible branch's `np.argmin(pop.get("CV"))`. */
  lemma ArgMinOfViolationsIsLeastInfeasible(pop: Pop, a: nat)
    requires |pop| > 0
    requires IsFirstArgMin(Violations(pop), a)
    ensures IsLeastInfeasible(pop, a)
  {
    forall j | 0 <= j < |pop|
      ensures pop[a].cv <= pop[j].cv
      ensures j < a ==> pop[j].cv > pop[a].cv
    {
      assert Violations(pop)[j] == pop[j].cv;
    }
  }

  /** `filter_optimum(pop, least_infeasible)` for a single-objective problem.
      A selected individual is wrapped as a one-element population. */
  function FilterOptimum(pop: Pop, leastInfeasible: bool): (r: Result<Option<Pop>, OptimumError>)
    ensures OptimumSpec(pop, leastInfeasible, r)
    ensures r.Failure? <==> leastInfeasible && |pop| == 0
    ensures r.Success? && r.value.Some? ==> |r.value.value| == 1 && r.value.value[0] in pop
  {
    var idx := TrueIndices(FeasibleMask(pop));
    if |idx| > 0 then
      var a := ArgMin(Objectives(Gather(pop, idx)));
      ArgMinOfFeasibleIsBest(pop, idx, a);
      assert pop[idx[a]].feasible;
      Success(Some([pop[idx[a]]]))
    else
      TrueIndicesEmpty(FeasibleMask(pop));
      assert !AnyFeasible(pop) by {
        forall i | 0 <= i < |pop| ensures !pop[i].feasible {
          assert !FeasibleMask(pop)[i];
        }
      }
      if !leastInfeasible then Success(None)
      else if |pop| == 0 then Failure(ArgMinOfEmpty)
      else
        var a := ArgMin(Violations(pop));
        ArgMinOfViolationsIsLeastInfeasible(pop, a);
        Success(Some([pop[a]]))
  }

  /** At most one position is the best feasible one. */
  lemma BestFeasibleIsUnique(pop: Pop, i: int, j: int)
    requires IsBestFeasible(pop, i) && IsBestFeasible(pop, j)
    ensures i == j
  {
  }

  /** At most one position is the least infeasible one. */
  lemma LeastInfeasibleIsUnique(pop: Pop, i: int, j: int)
    requires IsLeastInfeasible(pop, i) && IsLeastInfeasible(pop, j)
    ensures i == j
  {
    assert pop[i].cv == pop[j].cv;
  }

  /** `OptimumSpec` admits exactly one outcome, the one `FilterOptimum`
      computes: the specification and the computation agree on every input. */
  lemma FilterOptimumIsTheOnlySpecOutcome(pop: Pop, leastInfeasible: bool, r: Result<Option<Pop>, OptimumError>)
    ensures OptimumSpec(pop, leastInfeasible, r) <==> r == FilterOptimum(pop, leastInfeasible)
  {
    var f := FilterOptimum(pop, leastInfeasible);
    if OptimumSpec(pop, leastInfeasible, r) {
      if AnyFeasible(pop) {
        var i :| IsBestFeasible(pop, i) && r == Success(Some([pop[i]]));
        var k :| IsBestFeasible(pop, k) && f == Success(Some([pop[k]]));
        BestFeasibleIsUnique(pop, i, k);
      } else if leastInfeasible && |pop| > 0 {
        var i :| IsLeastInfeasible(pop, i) && r == Success(Some([pop[i]]));
        var k :| IsLeastInfeasible(pop, k) && f == Success(Some([pop[k]]));
        LeastInfeasibleIsUnique(pop, i, k);
      }
    }
  }

  /** With a feasible individual present, the optimum is one feasible member
      of the population whose `F` is no larger than any feasible member's,
      whatever `least_infeasible` says. */
  lemma FeasibleOptimumIsMinimalMember(pop: Pop, leastInfeasible: bool)
    requires AnyFeasible(pop)
    ensures var r := FilterOptimum(pop, leastInfeasible);
            && r.Success? && r.value.Some? && |r.value.value| == 1
            && r.value.value[0] in pop && r.value.value[0].feasible
            && (forall x :: x in pop && x.feasible ==> r.value.value[0].f <= x.f)
  {
    var r := FilterOptimum(pop, leastInfeasible);
    var i :| IsBestFeasible(pop, i) && r == Success(Some([pop[i]]));
    forall x | x in pop && x.feasible
      ensures pop[i].f <= x.f
    {
      var j :| 0 <= j < |pop| && pop[j] == x;
    }
  }

  /** With nobody feasible and `least_infeasible` unset, the answer is `None`;
      with it set, a non-empty population yields one member whose `CV` is no
      larger than anybody's. */
  lemma InfeasibleOptimum(pop: Pop, leastInfeasible: bool)
    requires !AnyFeasible(pop)
    ensures var r := FilterOptimum(pop, leastInfeasible);
            && (!leastInfeasible ==> r == Success(None))
            && (leastInfeasible && |pop| > 0 ==>
                  && r.Success? && r.value.Some? && |r.value.value| == 1
                  && r.value.value[0] in pop
                  && (forall x :: x in pop ==> r.value.value[0].cv <= x.cv))
  {
    var r := FilterOptimum(pop, leastInfeasible);
    if leastInfeasible && |pop| > 0 {
      var i :| IsLeastInfeasible(pop, i) && r == Success(Some([pop[i]]));
      forall x | x in pop
        ensures pop[i].cv <= x.cv
      {
        var j :| 0 <= j < |pop| && pop[j] == x;
      }
    }
  }
}
