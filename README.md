# Course-registration validator, modelled in Dafny

The program checks a student's course-registration request (name, number of
credit units "SKS", and whether the prerequisite coursework is done) against an
ordered list of validation rules. Two rules exist: the credit-limit rule
rejects more than 24 SKS, and the prerequisite rule rejects a student without
the prerequisite. `RegistrationService.register` asks the rules in list order,
returns false at the first rule that rejects, and true when all accept.

`registration.dfy` (module `Registration`) holds the whole model:

- `Student` is a datatype; `sks` is an unbounded `int` with no lower bound and
  `name` may be empty, as in the program, which checks neither.
- The rule family becomes the datatype `Rule = SksLimit | Prerequisite` with a
  `Validate` predicate; the limit 24 is the constant `MaxSks`.
- `AllPass` (every rule accepts) and `FirstFailure` (index of the first
  rejecting rule) specify the evaluation of a rule list.
- `RegistrationService` is a class whose rule list is a `const` field set by the
  constructor. `Register` is the loop with its early return. It also returns, as
  a ghost, the number of rules it consulted, so that short-circuiting can be
  stated.
- `Demonstration` replays the program's sample wiring and students and returns their verdicts, plus a
  student at exactly 24 SKS.

## Model

| member | source | states |
|---|---|---|
| Registration.Rule.Validate | pertemuan_12.py:51-83 | the credit-limit rule (lines 51-65) accepts a student exactly when sks <= 24 and rejects exactly when sks > 24; the prerequisite rule (lines 71-83) accepts exactly when has_prerequisite is true |
| Registration.SksLimitInclusive | pertemuan_12.py:54 | the comparison is strict, so 24 SKS passes and 25 fails, whatever the name and prerequisite flag |
| Registration.RulesReadOnlyTheirField | pertemuan_12.py:53-83 | the credit-limit rule's verdict depends only on sks and the prerequisite rule's only on has_prerequisite; neither verdict depends on the name (which the program reads only for its log lines) |
| Registration.FirstFailure | pertemuan_12.py:114-120 | the index where evaluation stops: None exactly when every rule accepts; otherwise an index in range whose rule rejects and before which every rule accepts |
| Registration.RegistrationService.constructor | pertemuan_12.py:95-101 | the service keeps exactly the rule list it is given |
| Registration.RegistrationService.Register | pertemuan_12.py:103-126 | returns true iff every rule in the list accepts the student (true for an empty list); on true all rules were consulted; on false exactly the rules up to and including the first rejecting one were consulted and none after it; it modifies nothing |
| Registration.FirstFailureAppend | pertemuan_12.py:114-120 | short-circuit: rules placed after a rejecting prefix never change where evaluation stops; after an accepting prefix evaluation continues into the rest, shifted by the prefix length |
| Registration.AllPassIgnoresOrder | pertemuan_12.py:114-126 | two lists holding the same rules, in any order and with any repetition, accept exactly the same students |
| Registration.OrderDecidesRejectingRule | pertemuan_12.py:114-120 | a student failing both rules is rejected by whichever rule the list puts first, with the same false outcome for both orders |
| Registration.StandardWiring | pertemuan_12.py:130-141 | with the wiring [credit limit, prerequisite], registration succeeds exactly when sks <= 24 and the prerequisite is met; sks > 24 stops at the first rule, sks <= 24 without the prerequisite at the second |
| Registration.Demonstration | pertemuan_12.py:130-141 | with the program's wiring, Andi (20 SKS, prerequisite met) is accepted after both rules; Budi (26 SKS, no prerequisite) is rejected after only the credit-limit rule; Cici (24 SKS, no prerequisite) passes the limit and is rejected by the prerequisite rule; a service with no rules accepts anyone without consulting a rule |

## Left out

- Logging (its configuration and every `logger.info` / `logger.warning` call): observation only, it affects no return value.
- The abstract base class `IValidationRule`: the rule family is closed here as a datatype, so a new rule means a new constructor and a new `Validate` case rather than a new subclass.
- Aliasing of the rule list: the program stores the caller's Python list itself, which the caller could still mutate after construction; the model keeps an immutable sequence fixed by the constructor, which is how the program's only caller uses it.
- Running the demonstration at module level: it appears as the `Demonstration` method, which returns the outcomes, with their contract, instead of logging them.
- No validation of the name or of negative SKS is modelled, because the program performs none; a negative SKS simply passes the credit-limit rule.
