/**
 * The Bayesian network as the enumeration code sees it, and the evidence
 * dictionary that the code updates in place.
 *
 * The network is an external collaborator: only its ordered variable names
 * and the conditional probability lookup `get_var(v).probability(b, ev)` are
 * consumed. Both become fields of a value; the lookup is an arbitrary total
 * function, so every result about it holds for every network.
 */
module Network {

  /** Variable names are Python strings. */
  type Var = string

  /** An evidence mapping: variable name to its fixed boolean value. */
  type Evidence = map<Var, bool>

  /**
   * `variableNames` is `bn.variable_names`; `probability(v, b, ev)` is
   * `bn.get_var(v).probability(b, ev)`.
   */
  datatype BayesNet = BayesNet(variableNames: seq<Var>, probability: (Var, bool, Evidence) -> real)

  /** The boolean domain, in the order both loops of the source visit it. */
  const Domain: seq<bool> := [true, false]

  /** The evidence `ev` with `v` fixed to `b` (Python `ev[v] = b`, viewed as a value). */
  function Extended(ev: Evidence, v: Var, b: bool): Evidence
  {
    ev[v := b]
  }

  /** Every conditional probability the network hands out lies in [0, 1]. */
  ghost predicate InUnitInterval(bn: BayesNet)
  {
    forall v, b, ev :: 0.0 <= bn.probability(v, b, ev) <= 1.0
  }

  /**
   * The two values of a variable receive complementary probabilities when
   * the evidence is extended with that variable, as the summing branch of the
   * evaluator does. A conditional probability table that looks only at the
   * variable's parents has this property.
   */
  ghost predicate Complementary(bn: BayesNet)
  {
    forall v, ev :: bn.probability(v, true, Extended(ev, v, true)) + bn.probability(v, false, Extended(ev, v, false)) == 1.0
  }

  /** No variable name occurs twice. */
  ghost predicate Distinct(vars: seq<Var>)
  {
    forall i, j :: 0 <= i < j < |vars| ==> vars[i] != vars[j]
  }

  /** A Python dict from variable names to booleans, shared and mutated by reference. */
  class EvidenceDict {
    var entries: Evidence

    /** `dict(m)`: a new dictionary holding the given entries. */
    constructor (m: Evidence)
      ensures entries == m
    {
      entries := m;
    }

    /** `d.copy()`: a new dictionary with the same entries. */
    method Copy() returns (d: EvidenceDict)
      ensures fresh(d) && d.entries == entries
    {
      d := new EvidenceDict(entries);
    }

    /** `d[k] = b`: inserts or overwrites one key. */
    method Set(k: Var, b: bool)
      modifies this
      ensures entries == Extended(old(entries), k, b)
    {
      entries := Extended(entries, k, b);
    }

    /** `del d[k]`: Python raises KeyError on a missing key, so callers ensure it is present. */
    method Delete(k: Var)
      requires k in entries
      modifies this
      ensures entries == old(entries) - {k}
    {
      entries := entries - {k};
    }
  }
}
