/** The optimum-reporting tail of `Algorithm.solve` (pymoo/model/algorithm.py):
    how the algorithm's stored optimum becomes `res.opt`, and which population
    the reported `X`, `F`, `CV` and `G` are read from. */
module Outcome {
  import opened Wrappers
  import opened Population
  import opened Optimum

  /** `res.opt` as `solve` derives it from the stored optimum `opt`: `None`
      for an empty optimum; for one without a feasible member, the least
      infeasible member when `return_least_infeasible` is set and `None`
      otherwise; and the stored optimum itself when some member is feasible. */
  function ResultOptimum(opt: Pop, returnLeastInfeasible: bool): (r: Option<Pop>)
    ensures r.None? <==> |opt| == 0 || (!AnyFeasible(opt) && !returnLeastInfeasible)
    ensures AnyFeasible(opt) ==> r == Some(opt)
    ensures r.Some? && !AnyFeasible(opt) ==>
              exists i :: IsLeastInfeasible(opt, i) && r == Some([opt[i]])
  {
    if |opt| == 0 then None
    else if !AnyFeasible(opt) then
      if returnLeastInfeasible then FilterOptimum(opt, true).value else None
    else Some(opt)
  }

  /** The fields of the result object this model tracks: `res.opt`, and the
      population whose `X`, `F`, `CV` and `G` are copied into `res`. */
  datatype Report = Report(opt: Option<Pop>, reported: Option<Pop>)

  /** `solve` as written: `res.opt` is the derived optimum, but the reported
      values are read from the stored optimum `self.opt` whenever the derived
      one is not `None`. */
  function ReportAsWritten(selfOpt: Pop, returnLeastInfeasible: bool): (r: Report)
    ensures r.opt == ResultOptimum(selfOpt, returnLeastInfeasible)
    ensures r.reported.None? <==> r.opt.None?
    ensures r.reported.Some? ==> r.reported == Some(selfOpt)
  {
    var opt := ResultOptimum(selfOpt, returnLeastInfeasible);
    Report(opt, if opt.None? then None else Some(selfOpt))
  }

  /** A stored optimum of two infeasible individuals with the flag set: the
      result names the least infeasible one as the optimum but reports the
      values of both. */
  lemma ReportAsWrittenDisagrees()
    ensures var worse := Individual(false, 0.0, 2.0);
            var better := Individual(false, 1.0, 1.0);
            var r := ReportAsWritten([worse, better], true);
            && r.opt == Some([better])
            && r.reported == Some([worse, better])
            && r.opt != r.reported
  {
    var worse := Individual(false, 0.0, 2.0);
    var better := Individual(false, 1.0, 1.0);
    var pop := [worse, better];
    assert !AnyFeasible(pop);
    var i :| IsLeastInfeasible(pop, i) && ResultOptimum(pop, true) == Some([pop[i]]);
    assert IsLeastInfeasible(pop, 1);
    LeastInfeasibleIsUnique(pop, i, 1);
  }

  /** The corrected reporting rule: the reported values are those of
      `res.opt` itself. Whenever anything is reported without a feasible
      member, it is exactly one individual, the least infeasible one. */
  function ResultReport(selfOpt: Pop, returnLeastInfeasible: bool): (r: Report)
    ensures r.reported == r.opt
    ensures r.opt == ResultOptimum(selfOpt, returnLeastInfeasible)
    ensures r.reported.Some? && !AnyFeasible(selfOpt) ==>
              |r.reported.value| == 1 && exists i :: IsLeastInfeasible(selfOpt, i) && r.reported.value[0] == selfOpt[i]
  {
    var opt := ResultOptimum(selfOpt, returnLeastInfeasible);
    Report(opt, opt)
  }

  /** For a stored optimum of one individual, which is what `_set_optimum`
      always stores, the as-written and the corrected rule give the same
      report. */
  lemma ReportsAgreeOnSingletons(x: Individual, returnLeastInfeasible: bool)
    ensures ReportAsWritten([x], returnLeastInfeasible) == ResultReport([x], returnLeastInfeasible)
  {
    if !x.feasible {
      assert !AnyFeasible([x]);
      if returnLeastInfeasible {
        var i :| IsLeastInfeasible([x], i) && ResultOptimum([x], true) == Some([[x][i]]);
      }
    } else {
      assert [x][0].feasible;
    }
  }
}
