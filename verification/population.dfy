/** Individuals and populations as `filter_optimum` and `solve` see them: an
    ordered sequence of evaluated records. Only the three attributes the driver
    reads are kept; no link between `feasible` and `cv` is assumed. */
module Population {

  /** One evaluated individual: whether it is feasible, its (single) objective
      value `F`, and its constraint violation `CV`. */
  datatype Individual = Individual(feasible: bool, f: real, cv: real)

  /** A population; order matters only for tie-breaking. */
  type Pop = seq<Individual>

  /** `pop.get("feasible")[:, 0]`. */
  function FeasibleMask(pop: Pop): seq<bool>
  {
    seq(|pop|, i requires 0 <= i < |pop| => pop[i].feasible)
  }

  /** `pop.get("F")` for a single-objective problem. */
  function Objectives(pop: Pop): seq<real>
  {
    seq(|pop|, i requires 0 <= i < |pop| => pop[i].f)
  }

  /** `pop.get("CV")`. */
  function Violations(pop: Pop): seq<real>
  {
    seq(|pop|, i requires 0 <= i < |pop| => pop[i].cv)
  }

  /** `pop[idx]`: the individuals at the given positions, in that order. */
  function Gather(pop: Pop, idx: seq<nat>): Pop
    requires forall k :: 0 <= k < |idx| ==> idx[k] < |pop|
  {
    seq(|idx|, k requires 0 <= k < |idx| => pop[idx[k]])
  }

  /** `np.any(pop.get("feasible"))`. */
  predicate AnyFeasible(pop: Pop)
  {
    exists i :: 0 <= i < |pop| && pop[i].feasible
  }
}
