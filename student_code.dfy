/**
 * Enumeration-ask as written in student_code.py: `joint_prob` sums out the
 * unobserved variables along the network's ordered variable list, sharing one
 * evidence dictionary that it extends and restores; `ask` evaluates it twice
 * and `normalisation` rescales the pair.
 *
 * `JointSpec` is the value `joint_prob` computes, stated as a function;
 * `JointProb` is the in-place algorithm, proved to return it and to leave the
 * dictionary as it found it.
 */
module StudentCode {
  import opened Wrappers
  import opened Network

  // ---------------------------------------------------------------------------
  // Specification of joint_prob

  /** The joint probability of `vars` under evidence `ev`, unobserved variables summed out. */
  function JointSpec(vars: seq<Var>, ev: Evidence, bn: BayesNet): real
    decreases |vars|, 1, 0
  {
    if vars == [] then 1.0
    else if vars[0] in ev then bn.probability(vars[0], ev[vars[0]], ev) * JointSpec(vars[1..], ev, bn)
    else SumOverValues(vars[0], Domain, vars[1..], ev, bn)
  }

  /** The running total of the summing loop after it has visited `values`. */
  function SumOverValues(head: Var, values: seq<bool>, tail: seq<Var>, ev: Evidence, bn: BayesNet): real
    decreases |tail| + 1, 0, |values|
  {
    if values == [] then 0.0
    else SumOverValues(head, values[..|values| - 1], tail, ev, bn) + Term(head, values[|values| - 1], tail, ev, bn)
  }

  /**
   * One summand of the summing branch: the probability of `head = b` times
   * the joint probability of `tail`, both under `ev` extended with `head = b`.
   */
  function Term(head: Var, b: bool, tail: seq<Var>, ev: Evidence, bn: BayesNet): real
    decreases |tail| + 1, 0, 0
  {
    var ext := Extended(ev, head, b);
    bn.probability(head, b, ext) * JointSpec(tail, ext, bn)
  }

  /** The product of the conditional probabilities of `vars`, each at its value in `ev`. */
  function ObservedProduct(vars: seq<Var>, ev: Evidence, bn: BayesNet): real
    requires forall i :: 0 <= i < |vars| ==> vars[i] in ev
  {
    if vars == [] then 1.0
    else bn.probability(vars[0], ev[vars[0]], ev) * ObservedProduct(vars[1..], ev, bn)
  }

  // ---------------------------------------------------------------------------
  // Properties of the specification

  /** joint_prob of the empty list is 1, whatever the evidence. */
  lemma JointSpecEmpty(ev: Evidence, bn: BayesNet)
    ensures JointSpec([], ev, bn) == 1.0
  {
  }

  /** An observed head contributes one factor, at its observed value, and no sum. */
  lemma JointSpecObserved(vars: seq<Var>, ev: Evidence, bn: BayesNet)
    requires vars != [] && vars[0] in ev
    ensures JointSpec(vars, ev, bn) == bn.probability(vars[0], ev[vars[0]], ev) * JointSpec(vars[1..], ev, bn)
  {
  }

  /** An unobserved head is summed over True and then False, each with the evidence extended by it. */
  lemma JointSpecUnobserved(vars: seq<Var>, ev: Evidence, bn: BayesNet)
    requires vars != [] && vars[0] !in ev
    ensures JointSpec(vars, ev, bn) == Term(vars[0], true, vars[1..], ev, bn) + Term(vars[0], false, vars[1..], ev, bn)
  {
    var v, tail := vars[0], vars[1..];
    assert [true][..0] == [];
    assert SumOverValues(v, [true], tail, ev, bn) == Term(v, true, tail, ev, bn);
    assert Domain[..1] == [true];
    assert SumOverValues(v, Domain, tail, ev, bn) == SumOverValues(v, [true], tail, ev, bn) + Term(v, false, tail, ev, bn);
  }

  /** When `ev` fixes every listed variable, joint_prob is the plain product of their conditionals. */
  lemma {:induction false} FullyObservedIsProduct(vars: seq<Var>, ev: Evidence, bn: BayesNet)
    requires forall i :: 0 <= i < |vars| ==> vars[i] in ev
    ensures JointSpec(vars, ev, bn) == ObservedProduct(vars, ev, bn)
  {
    if vars != [] {
      FullyObservedIsProduct(vars[1..], ev, bn);
    }
  }

  /** With conditionals in [0, 1], joint_prob is never negative. */
  lemma {:induction false} JointSpecNonNegative(vars: seq<Var>, ev: Evidence, bn: BayesNet)
    requires InUnitInterval(bn)
    ensures 0.0 <= JointSpec(vars, ev, bn)
    decreases |vars|
  {
    if vars != [] {
      var v, tail := vars[0], vars[1..];
      if v in ev {
        JointSpecNonNegative(tail, ev, bn);
        ProbabilityInUnitInterval(bn, v, ev[v], ev);
        NonNegativeProduct(bn.probability(v, ev[v], ev), JointSpec(tail, ev, bn));
      } else {
        JointSpecUnobserved(vars, ev, bn);
        var et, ef := Extended(ev, v, true), Extended(ev, v, false);
        JointSpecNonNegative(tail, et, bn);
        JointSpecNonNegative(tail, ef, bn);
        NonNegativeProduct(bn.probability(v, true, et), JointSpec(tail, et, bn));
        NonNegativeProduct(bn.probability(v, false, ef), JointSpec(tail, ef, bn));
      }
    }
  }

  /** The [0, 1] range assumption at one lookup. */
  lemma ProbabilityInUnitInterval(bn: BayesNet, v: Var, b: bool, ev: Evidence)
    requires InUnitInterval(bn)
    ensures 0.0 <= bn.probability(v, b, ev) <= 1.0
  {
  }

  lemma NonNegativeProduct(p: real, j: real)
    requires 0.0 <= p && 0.0 <= j
    ensures 0.0 <= p * j
  {
  }

  /** The product t of two numbers in [0, 1] is at most either of them. */
  lemma MulBounds(p: real, j: real, t: real)
    requires 0.0 <= p <= 1.0 && 0.0 <= j <= 1.0 && t == p * j
    ensures 0.0 <= t <= p && t <= j
  {
    NonNegativeProduct(p, j);
    NonNegativeProduct(p, 1.0 - j);
    NonNegativeProduct(1.0 - p, j);
  }

  /**
   * With complementary conditionals and no variable fixed or repeated, the
   * enumeration sums the joint distribution over every assignment: total mass 1.
   */
  lemma {:induction false} TotalMassIsOne(vars: seq<Var>, ev: Evidence, bn: BayesNet)
    requires Complementary(bn) && Distinct(vars)
    requires forall i :: 0 <= i < |vars| ==> vars[i] !in ev
    ensures JointSpec(vars, ev, bn) == 1.0
    decreases |vars|
  {
    if vars != [] {
      var v, tail := vars[0], vars[1..];
      JointSpecUnobserved(vars, ev, bn);
      TotalMassIsOne(tail, Extended(ev, v, true), bn);
      TotalMassIsOne(tail, Extended(ev, v, false), bn);
      assert bn.probability(v, true, Extended(ev, v, true)) + bn.probability(v, false, Extended(ev, v, false)) == 1.0;
    }
  }

  /**
   * With conditionals in [0, 1] and complementary, joint_prob is itself a
   * probability: at most 1, whatever is observed.
   */
  lemma {:induction false} JointSpecAtMostOne(vars: seq<Var>, ev: Evidence, bn: BayesNet)
    requires InUnitInterval(bn) && Complementary(bn)
    ensures 0.0 <= JointSpec(vars, ev, bn) <= 1.0
    decreases |vars|
  {
    if vars != [] {
      var v, tail := vars[0], vars[1..];
      if v in ev {
        JointSpecAtMostOne(tail, ev, bn);
        ProbabilityInUnitInterval(bn, v, ev[v], ev);
        MulBounds(bn.probability(v, ev[v], ev), JointSpec(tail, ev, bn), JointSpec(vars, ev, bn));
      } else {
        JointSpecUnobserved(vars, ev, bn);
        JointSpecAtMostOne(tail, Extended(ev, v, true), bn);
        JointSpecAtMostOne(tail, Extended(ev, v, false), bn);
        TermAtMostProbability(v, true, tail, ev, bn);
        TermAtMostProbability(v, false, tail, ev, bn);
        assert bn.probability(v, true, Extended(ev, v, true)) + bn.probability(v, false, Extended(ev, v, false)) == 1.0;
      }
    }
  }

  /** A summand whose joint factor is in [0, 1] lies between 0 and its conditional probability. */
  lemma TermAtMostProbability(head: Var, b: bool, tail: seq<Var>, ev: Evidence, bn: BayesNet)
    requires InUnitInterval(bn)
    requires 0.0 <= JointSpec(tail, Extended(ev, head, b), bn) <= 1.0
    ensures 0.0 <= Term(head, b, tail, ev, bn) <= bn.probability(head, b, Extended(ev, head, b))
  {
    var ext := Extended(ev, head, b);
    ProbabilityInUnitInterval(bn, head, b, ext);
    MulBounds(bn.probability(head, b, ext), JointSpec(tail, ext, bn), Term(head, b, tail, ev, bn));
  }

  // ---------------------------------------------------------------------------
  // joint_prob

  /**
   * joint_prob(variables, current_evidence, bn): recursion over the variable
   * list, extending the shared dictionary for each value of an unobserved
   * variable and deleting the key again.
   */
  method JointProb(variables: seq<Var>, currentEvidence: EvidenceDict, bn: BayesNet) returns (p: real)
    modifies currentEvidence
    ensures p == JointSpec(variables, old(currentEvidence.entries), bn)
    ensures currentEvidence.entries == old(currentEvidence.entries)
    decreases |variables|
  {
    if variables == [] {
      return 1.0;
    }
    var currentVar := variables[0];
    if currentVar in currentEvidence.entries {
      var probability := bn.probability(currentVar, currentEvidence.entries[currentVar], currentEvidence.entries);
      var rest := JointProb(variables[1..], currentEvidence, bn);
      p := probability * rest;
    } else {
      ghost var ev := currentEvidence.entries;
      var totalProb := 0.0;
      for i := 0 to |Domain|
        invariant currentEvidence.entries == ev
        invariant totalProb == SumOverValues(currentVar, Domain[..i], variables[1..], ev, bn)
      {
        var varValue := Domain[i];
        currentEvidence.Set(currentVar, varValue);
        var probability := bn.probability(currentVar, varValue, currentEvidence.entries);
        var rest := JointProb(variables[1..], currentEvidence, bn);
        totalProb := totalProb + probability * rest;
        currentEvidence.Delete(currentVar);
        assert currentEvidence.entries == ev;
        assert Domain[..i + 1][..i] == Domain[..i];
      }
      assert Domain[..|Domain|] == Domain;
      p := totalProb;
    }
  }

  // ---------------------------------------------------------------------------
  // normalisation

  /** Python's `sum`: 0 plus every element. */
  function Sum(ps: seq<real>): real
  {
    if ps == [] then 0.0 else ps[0] + Sum(ps[1..])
  }

  /**
   * normalisation(probabilities): every element divided by the total. An
   * empty list gives an empty list (nothing is divided); a non-empty list
   * whose total is 0 raises ZeroDivisionError.
   */
  function Normalisation(probabilities: seq<real>): (r: Result<seq<real>>)
    ensures r.Err? <==> probabilities != [] && Sum(probabilities) == 0.0
    ensures r.Ok? ==> |r.value| == |probabilities|
    ensures r.Ok? ==> forall i :: 0 <= i < |probabilities| ==>
      Sum(probabilities) != 0.0 && r.value[i] == probabilities[i] / Sum(probabilities)
  {
    var totalProb := Sum(probabilities);
    if probabilities == [] then Ok([])
    else if totalProb == 0.0 then Err(ZeroDivisionError)
    else Ok(seq(|probabilities|, i requires 0 <= i < |probabilities| => probabilities[i] / totalProb))
  }

  /** Dividing every element by t divides the sum by t. */
  lemma {:induction false} SumScaled(ps: seq<real>, qs: seq<real>, t: real)
    requires t != 0.0 && |qs| == |ps|
    requires forall i :: 0 <= i < |ps| ==> qs[i] == ps[i] / t
    ensures Sum(qs) == Sum(ps) / t
  {
    if ps != [] {
      SumScaled(ps[1..], qs[1..], t);
      assert Sum(qs) == ps[0] / t + Sum(ps[1..]) / t;
    }
  }

  /** A successful normalisation of a non-empty list sums to 1. */
  lemma NormalisationSumsToOne(probabilities: seq<real>)
    requires probabilities != [] && Sum(probabilities) != 0.0
    ensures Normalisation(probabilities).Ok?
    ensures Sum(Normalisation(probabilities).value) == 1.0
  {
    var total := Sum(probabilities);
    SumScaled(probabilities, Normalisation(probabilities).value, total);
    assert total / total == 1.0;
  }

  // ---------------------------------------------------------------------------
  // ask

  /** The unnormalised pair [P(var = True, e), P(var = False, e)] that ask collects. */
  function Unnormalised(v: Var, ev: Evidence, bn: BayesNet): seq<real>
  {
    [JointSpec(bn.variableNames, Extended(ev, v, true), bn), JointSpec(bn.variableNames, Extended(ev, v, false), bn)]
  }

  /**
   * A value the caller's evidence already gives the query variable is
   * overwritten in each copy, so the pair is the same as if the evidence did
   * not mention the query variable at all.
   */
  lemma UnnormalisedIgnoresQueryEntry(v: Var, ev: Evidence, bn: BayesNet)
    ensures Unnormalised(v, ev, bn) == Unnormalised(v, ev - {v}, bn)
  {
    assert Extended(ev, v, true) == Extended(ev - {v}, v, true);
    assert Extended(ev, v, false) == Extended(ev - {v}, v, false);
  }

  /**
   * ask(var, value, evidence, bn) as a value: the normalised pair's first
   * element for True, its second for False. It fails exactly when both
   * unnormalised probabilities sum to 0; otherwise it is the posterior
   * P(var = value, e) / (P(var = True, e) + P(var = False, e)).
   */
  function AskSpec(v: Var, value: bool, ev: Evidence, bn: BayesNet): (r: Result<real>)
    ensures var pair := Unnormalised(v, ev, bn);
      && (r.Err? <==> pair[0] + pair[1] == 0.0)
      && (r.Ok? ==> pair[0] + pair[1] != 0.0 && r.value == (if value then pair[0] else pair[1]) / (pair[0] + pair[1]))
  {
    var pair := Unnormalised(v, ev, bn);
    assert Sum(pair[1..][1..]) == 0.0;
    assert Sum(pair[1..]) == pair[1];
    assert Sum(pair) == pair[0] + pair[1];
    match Normalisation(pair)
    case Err(e) => Err(e)
    case Ok(normalised) => Ok(if value then normalised[0] else normalised[1])
  }

  /** The two answers of ask for one query variable sum to 1. */
  lemma AskComplement(v: Var, ev: Evidence, bn: BayesNet)
    requires AskSpec(v, true, ev, bn).Ok?
    ensures AskSpec(v, false, ev, bn).Ok?
    ensures AskSpec(v, true, ev, bn).value + AskSpec(v, false, ev, bn).value == 1.0
  {
    var pair := Unnormalised(v, ev, bn);
    var s := pair[0] + pair[1];
    DivideSum(pair[0], pair[1], s);
  }

  /** With conditionals in [0, 1], a defined answer of ask is a probability. */
  lemma AskIsProbability(v: Var, value: bool, ev: Evidence, bn: BayesNet)
    requires InUnitInterval(bn) && AskSpec(v, value, ev, bn).Ok?
    ensures 0.0 <= AskSpec(v, value, ev, bn).value <= 1.0
  {
    var pair := Unnormalised(v, ev, bn);
    JointSpecNonNegative(bn.variableNames, Extended(ev, v, true), bn);
    JointSpecNonNegative(bn.variableNames, Extended(ev, v, false), bn);
    var s := pair[0] + pair[1];
    var x := if value then pair[0] else pair[1];
    FractionInUnitInterval(x, s);
  }

  lemma DivideSum(a: real, b: real, s: real)
    requires s != 0.0 && a + b == s
    ensures a / s + b / s == 1.0
  {
    assert a / s + b / s == (a + b) / s;
  }

  lemma FractionInUnitInterval(x: real, s: real)
    requires 0.0 <= x <= s && s != 0.0
    ensures 0.0 <= x / s <= 1.0
  {
    assert x / s * s == x;
  }

  /**
   * ask(var, value, evidence, bn): one fresh copy of `evidence` per value of
   * `var`, each passed to joint_prob; the caller's dictionary is not touched.
   */
  method Ask(v: Var, value: bool, evidence: EvidenceDict, bn: BayesNet) returns (r: Result<real>)
    ensures r == AskSpec(v, value, evidence.entries, bn)
    ensures unchanged(evidence)
  {
    var probabilities: seq<real> := [];
    for i := 0 to |Domain|
      invariant |probabilities| == i
      invariant forall k :: 0 <= k < i ==>
        probabilities[k] == JointSpec(bn.variableNames, Extended(evidence.entries, v, Domain[k]), bn)
    {
      var varValue := Domain[i];
      var extendedEvidence := evidence.Copy();
      extendedEvidence.Set(v, varValue);
      var p := JointProb(bn.variableNames, extendedEvidence, bn);
      probabilities := probabilities + [p];
    }
    assert probabilities == Unnormalised(v, evidence.entries, bn);
    var normalisedProbabilities := Normalisation(probabilities);
    match normalisedProbabilities
    case Err(e) =>
      r := Err(e);
    case Ok(normalised) =>
      if value {
        r := Ok(normalised[0]);
      } else {
        r := Ok(normalised[1]);
      }
  }
}
