/**
 * The second enumeration-ask, in test_student_code.py: `ask` with the nested
 * helpers `normalize` and `enumerate_all`.
 *
 * Each piece is specified on its own terms and then proved to agree with the
 * corresponding piece of student_code.py, so the two `ask` functions return
 * the same answer, or fail together, on every network and evidence.
 */
module TestStudentCode {
  import opened Wrappers
  import opened Network
  import StudentCode

  /**
   * The nested normalize(probabilities): the same division of every element
   * by the total as normalisation in student_code.py, and the same failure.
   */
  function Normalize(probabilities: seq<real>): (r: Result<seq<real>>)
    ensures r == StudentCode.Normalisation(probabilities)
  {
    var totalProb := StudentCode.Sum(probabilities);
    if probabilities != [] && totalProb == 0.0 then Err(ZeroDivisionError)
    else
      var normalized := seq(|probabilities|, i requires 0 <= i < |probabilities| => probabilities[i] / totalProb);
      assert normalized == StudentCode.Normalisation(probabilities).value;
      Ok(normalized)
  }

  /**
   * The value enumerate_all(variables, current_evidence) computes: 1 on the
   * empty list; an observed head times the rest; an unobserved head summed,
   * starting from 0, over True and then False. It equals joint_prob of
   * student_code.py on every input.
   */
  function EnumerateAllSpec(variables: seq<Var>, currentEvidence: Evidence, bn: BayesNet): (r: real)
    ensures r == StudentCode.JointSpec(variables, currentEvidence, bn)
    decreases |variables|, 1
  {
    if variables == [] then 1.0
    else
      var currentVar := variables[0];
      if currentVar in currentEvidence then
        var probability := bn.probability(currentVar, currentEvidence[currentVar], currentEvidence);
        StudentCode.JointSpecObserved(variables, currentEvidence, bn);
        probability * EnumerateAllSpec(variables[1..], currentEvidence, bn)
      else
        StudentCode.JointSpecUnobserved(variables, currentEvidence, bn);
        0.0 + Summand(currentVar, true, variables[1..], currentEvidence, bn)
            + Summand(currentVar, false, variables[1..], currentEvidence, bn)
  }

  /** One pass of the summing loop, with the current variable set to `b` in the evidence. */
  function Summand(currentVar: Var, b: bool, rest: seq<Var>, currentEvidence: Evidence, bn: BayesNet): (r: real)
    ensures r == StudentCode.Term(currentVar, b, rest, currentEvidence, bn)
    decreases |rest| + 1, 0
  {
    var extended := Extended(currentEvidence, currentVar, b);
    bn.probability(currentVar, b, extended) * EnumerateAllSpec(rest, extended, bn)
  }

  /** enumerate_all on the empty list is 1, whatever the evidence. */
  lemma EnumerateAllEmpty(currentEvidence: Evidence, bn: BayesNet)
    ensures EnumerateAllSpec([], currentEvidence, bn) == 1.0
  {
  }

  /** In the observed branch enumerate_all is the head's conditional times the result on the tail. */
  lemma EnumerateAllObserved(variables: seq<Var>, currentEvidence: Evidence, bn: BayesNet)
    requires variables != [] && variables[0] in currentEvidence
    ensures EnumerateAllSpec(variables, currentEvidence, bn)
      == bn.probability(variables[0], currentEvidence[variables[0]], currentEvidence)
         * EnumerateAllSpec(variables[1..], currentEvidence, bn)
  {
  }

  /**
   * enumerate_all(variables, current_evidence): the nested helper, extending
   * and restoring the shared dictionary exactly as joint_prob does.
   */
  method EnumerateAll(variables: seq<Var>, currentEvidence: EvidenceDict, bn: BayesNet) returns (p: real)
    modifies currentEvidence
    ensures p == EnumerateAllSpec(variables, old(currentEvidence.entries), bn)
    ensures currentEvidence.entries == old(currentEvidence.entries)
    decreases |variables|
  {
    if variables == [] {
      return 1.0;
    }
    var currentVar := variables[0];
    if currentVar in currentEvidence.entries {
      var probability := bn.probability(currentVar, currentEvidence.entries[currentVar], currentEvidence.entries);
      var rest := EnumerateAll(variables[1..], currentEvidence, bn);
      return probability * rest;
    } else {
      ghost var ev := currentEvidence.entries;
      var totalProb := 0.0;
      for i := 0 to |Domain|
        invariant currentEvidence.entries == ev
        invariant totalProb == 0.0 + (if i > 0 then Summand(currentVar, true, variables[1..], ev, bn) else 0.0)
                                   + (if i > 1 then Summand(currentVar, false, variables[1..], ev, bn) else 0.0)
      {
        var varValue := Domain[i];
        currentEvidence.Set(currentVar, varValue);
        var probability := bn.probability(currentVar, varValue, currentEvidence.entries);
        var rest := EnumerateAll(variables[1..], currentEvidence, bn);
        totalProb := totalProb + probability * rest;
        currentEvidence.Delete(currentVar);
        assert currentEvidence.entries == ev;
      }
      return totalProb;
    }
  }

  /**
   * The list built over True and False: enumerate_all over every variable,
   * with the target set to each value on top of the copied evidence in which
   * the target already holds `targetValue`. That first assignment is always
   * overridden, so the list does not depend on `targetValue` and is the pair
   * ask in student_code.py builds.
   */
  function AllProbabilities(targetVariable: Var, targetValue: bool, knownEvidence: Evidence, bn: BayesNet): (r: seq<real>)
    ensures r == StudentCode.Unnormalised(targetVariable, knownEvidence, bn)
  {
    var extendedEvidence := Extended(knownEvidence, targetVariable, targetValue);
    assert Extended(extendedEvidence, targetVariable, true) == Extended(knownEvidence, targetVariable, true);
    assert Extended(extendedEvidence, targetVariable, false) == Extended(knownEvidence, targetVariable, false);
    [EnumerateAllSpec(bn.variableNames, Extended(extendedEvidence, targetVariable, true), bn),
     EnumerateAllSpec(bn.variableNames, Extended(extendedEvidence, targetVariable, false), bn)]
  }

  /**
   * ask(target_variable, target_value, known_evidence, bayesian_network) as a
   * value: the normalised list's first element for True, its second for
   * False. It agrees with ask of student_code.py, error included.
   */
  function AskSpec(targetVariable: Var, targetValue: bool, knownEvidence: Evidence, bn: BayesNet): (r: Result<real>)
    ensures r == StudentCode.AskSpec(targetVariable, targetValue, knownEvidence, bn)
  {
    match Normalize(AllProbabilities(targetVariable, targetValue, knownEvidence, bn))
    case Err(e) => Err(e)
    case Ok(normalizedProbabilities) =>
      Ok(if targetValue then normalizedProbabilities[0] else normalizedProbabilities[1])
  }

  /**
   * ask: copies `known_evidence`, sets the target, and evaluates
   * enumerate_all on a fresh dictionary per value; the caller's dictionary is
   * not touched.
   */
  method Ask(targetVariable: Var, targetValue: bool, knownEvidence: EvidenceDict, bn: BayesNet) returns (r: Result<real>)
    ensures r == AskSpec(targetVariable, targetValue, knownEvidence.entries, bn)
    ensures unchanged(knownEvidence)
  {
    var extendedEvidence := knownEvidence.Copy();
    extendedEvidence.Set(targetVariable, targetValue);
    var allProbabilities: seq<real> := [];
    for i := 0 to |Domain|
      invariant extendedEvidence.entries == Extended(knownEvidence.entries, targetVariable, targetValue)
      invariant |allProbabilities| == i
      invariant forall k :: 0 <= k < i ==>
        allProbabilities[k] == EnumerateAllSpec(bn.variableNames, Extended(extendedEvidence.entries, targetVariable, Domain[k]), bn)
    {
      var val := Domain[i];
      var branchEvidence := new EvidenceDict(Extended(extendedEvidence.entries, targetVariable, val));
      var p := EnumerateAll(bn.variableNames, branchEvidence, bn);
      allProbabilities := allProbabilities + [p];
    }
    assert allProbabilities == AllProbabilities(targetVariable, targetValue, knownEvidence.entries, bn);
    var normalizedProbabilities := Normalize(allProbabilities);
    match normalizedProbabilities
    case Err(e) =>
      r := Err(e);
    case Ok(normalized) =>
      r := Ok(if targetValue then normalized[0] else normalized[1]);
  }
}
