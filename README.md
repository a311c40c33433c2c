# Enumeration-ask over a boolean Bayesian network

This project models exact inference by enumeration ("enumeration-ask") as the
repository implements it twice:

- `student_code.py`: `ask(var, value, evidence, bn)`, `normalisation(probabilities)` and
  `joint_prob(variables, current_evidence, bn)`;
- `test_student_code.py`: a second `ask(target_variable, target_value, known_evidence,
  bayesian_network)` with the nested helpers `normalize` and `enumerate_all`.

`ask` computes P(var = value | evidence). It extends the evidence with the query variable
set to True and then to False, evaluates the joint probability of the network's ordered
variable list under each, and normalises the pair. The joint probability is a recursion
along the list: 1 on the empty list; for an observed head, the head's conditional
probability times the rest; for an unobserved head, a sum over True and False. That sum
writes the head into the shared evidence dictionary and deletes it again.

Files:

- `wrappers.dfy` (module `Wrappers`): `Result` and the one error the core raises itself,
  `ZeroDivisionError`.
- `network.dfy` (module `Network`): the network as the core sees it. `BayesNet` pairs the
  ordered `variableNames` with an arbitrary total function `probability(v, b, ev)`, which
  stands for `bn.get_var(v).probability(b, ev)`. `InUnitInterval` says every lookup lies in
  [0, 1]. `Complementary` says the two values of a variable get probabilities summing to 1.
  `EvidenceDict` is the Python dict that the code shares and updates in place. Its methods
  are `copy()`, `d[k] = b` and `del d[k]`.
- `student_code.dfy` (module `StudentCode`): `JointSpec` is the value `joint_prob` computes.
  It is mutually recursive with `SumOverValues`, the running total of the summing loop.
  `JointProb` is the in-place algorithm, proved to return `JointSpec` and to restore the
  dictionary. `Normalisation` and `AskSpec` are the value-level `normalisation` and `ask`.
  `Ask` is the imperative `ask`, which copies the caller's dictionary.
- `test_student_code.dfy` (module `TestStudentCode`): the second implementation, specified
  on its own terms (`EnumerateAllSpec` writes the two-value sum out, starting from 0). Each
  piece is proved equal to its counterpart in `StudentCode`, so both `ask`s return the same
  answer, or fail together, on every network and evidence.

Python floats are modelled as `real`. Python raises `ZeroDivisionError` on a float division
by zero; it does not produce inf or NaN. So both normalisations return
`Err(ZeroDivisionError)` exactly when the list is non-empty and sums to 0. An empty list
normalises to an empty list without error, because the comprehension never divides.

## Model

| member | source | states |
|---|---|---|
| `StudentCode.JointSpecEmpty` | student_code.py:26-27 | joint_prob of the empty variable list is 1.0 whatever the evidence |
| `StudentCode.JointSpecObserved` | student_code.py:29-33 | an observed head contributes its conditional at the observed value, under the unchanged evidence, times the result on the tail; nothing is summed |
| `StudentCode.JointSpecUnobserved` | student_code.py:34-41 | an unobserved head gives the sum, over True then False, of its conditional times the tail's joint probability, both under the evidence extended with the head at that value |
| `StudentCode.FullyObservedIsProduct` | student_code.py:30-33 | when the evidence fixes every listed variable, joint_prob equals the plain product of the per-variable conditionals |
| `StudentCode.JointSpecNonNegative` | student_code.py:23-41 | with every conditional in [0, 1], joint_prob is never negative |
| `StudentCode.JointSpecAtMostOne` | student_code.py:23-41 | with conditionals in [0, 1] whose two values are complementary, joint_prob lies in [0, 1] whatever is observed |
| `StudentCode.TotalMassIsOne` | student_code.py:34-41 | with complementary conditionals, no repeated variable and none observed, the enumeration sums to exactly 1 |
| `StudentCode.TermAtMostProbability` | student_code.py:39 | one summand of the summing loop lies between 0 and the head's conditional when the tail's joint probability is in [0, 1] |
| `StudentCode.JointProb` | student_code.py:23-41 | the in-place recursion returns JointSpec of the entry evidence and leaves the shared dictionary with exactly the keys and values it had on entry |
| `StudentCode.Normalisation` | student_code.py:17-20 | fails with ZeroDivisionError exactly when the list is non-empty and sums to 0; otherwise has the same length and element i is probabilities[i] divided by the sum |
| `StudentCode.SumScaled` | student_code.py:19-20 | dividing every element by a nonzero total divides the sum by that total |
| `StudentCode.NormalisationSumsToOne` | student_code.py:17-20 | a non-empty list with nonzero sum normalises successfully to a list that sums to 1 |
| `StudentCode.UnnormalisedIgnoresQueryEntry` | student_code.py:5-7 | each branch overwrites the query variable in its copy, so the unnormalised pair is the same whether or not the caller's evidence already gives the query variable a value |
| `StudentCode.AskSpec` | student_code.py:1-14 | fails exactly when P(var=True, e) + P(var=False, e) is 0; otherwise returns P(var=value, e) divided by that sum (element 0 for True, 1 for False) |
| `StudentCode.AskComplement` | student_code.py:9-14 | when ask succeeds for True it also succeeds for False, and the two answers sum to 1 |
| `StudentCode.AskIsProbability` | student_code.py:1-14 | with conditionals in [0, 1], a successful ask returns a value in [0, 1] |
| `StudentCode.Ask` | student_code.py:1-14 | the imperative ask returns AskSpec of the caller's evidence and leaves the caller's dictionary unchanged; each branch works on a fresh copy |
| `TestStudentCode.Normalize` | test_student_code.py:21-32 | the nested normalize equals student_code's normalisation on every list, so it sums to 1 for a nonzero total and fails with ZeroDivisionError exactly when the list is non-empty and its total is 0 |
| `TestStudentCode.EnumerateAllSpec` | test_student_code.py:34-62 | enumerate_all equals joint_prob of student_code on every variable list and evidence |
| `TestStudentCode.Summand` | test_student_code.py:58-61 | one pass of the summing loop equals the corresponding summand of joint_prob |
| `TestStudentCode.EnumerateAllEmpty` | test_student_code.py:46-47 | enumerate_all of the empty list is 1.0 whatever the evidence |
| `TestStudentCode.EnumerateAllObserved` | test_student_code.py:51-54 | in the observed branch enumerate_all is the head's conditional times the recursive result on the tail |
| `TestStudentCode.EnumerateAll` | test_student_code.py:34-62 | the in-place helper returns EnumerateAllSpec of the entry evidence and restores current_evidence on return |
| `TestStudentCode.AllProbabilities` | test_student_code.py:16-65 | the list built at line 65 does not depend on target_value (the assignment at line 18 is always overridden) and is the unnormalised pair that student_code's ask builds |
| `TestStudentCode.AskSpec` | test_student_code.py:1-69 | returns the same result as student_code's ask for the same network, variable, value and evidence, the division error included |
| `TestStudentCode.Ask` | test_student_code.py:1-69 | the imperative ask returns AskSpec of the caller's evidence and does not change the caller's known_evidence |

## Left out

- The network's `get_var(...).probability(...)` is a total function here. A lookup that raises is not modelled: a missing parent value, an unknown variable name, or a dictionary left half-updated because an exception escaped the summing loop.
- IEEE floating point (rounding, underflow) is modelled as exact `real` arithmetic. The properties "sums to 1" hold exactly in the model, and only approximately in Python.
- Semantic correctness against the true joint distribution is not modelled. This covers a root variable's posterior equalling its prior, and the classic burglary network's P(Burglary | JohnCalls, MaryCalls) of about 0.284. Both need the network's parent structure and a topological-order guarantee, and neither is part of the code. `TotalMassIsOne` and `JointSpecAtMostOne` assume only the weaker `Complementary` property of the lookup.
- `ask`'s `if value:` accepts any truthy Python object; the model takes a `bool`.
- Python's requirement that `dict(extended_evidence, **{target_variable: val})` have string keys is met by construction, because variable names are strings in the model.
- Python's recursion limit is not modelled. `joint_prob` and `enumerate_all` recurse once per listed variable, so a list of about 1000 variables raises RecursionError in Python, where `JointProb` and `EnumerateAll` return a value.
- `probability` is a pure function of an unordered map. The code passes the live, insertion-ordered `current_evidence` dict to the lookup. The restored-dictionary guarantee of `JointProb` and `EnumerateAll` holds only for a lookup that never writes to that dict, and a lookup that depends on key order is not modelled.
- The commented-out `print` calls of test_student_code.py are not modelled.
