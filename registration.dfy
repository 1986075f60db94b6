/** A model of a course-registration validator: a student's request is checked
    against an ordered list of validation rules (a credit-load limit and a
    prerequisite check), and registration succeeds only if every rule passes.
    Evaluation stops at the first rule that fails.
 */
module Registration {

  /** The most credit units (SKS) a student may register for; the limit is inclusive. */
  const MaxSks: int := 24

  /** One registration request. `sks` is an unbounded integer with no lower
      bound, and `name` may be empty: the program guards neither. */
  datatype Student = Student(name: string, sks: int, hasPrerequisite: bool)

  /** The closed family of validation rules the program defines. */
  datatype Rule = SksLimit | Prerequisite {

    /** True when this rule accepts the student: the credit-limit rule
        rejects exactly the students over the (inclusive) limit, the
        prerequisite rule exactly those without the prerequisite. */
    function Validate(s: Student): (ok: bool)
      ensures SksLimit? ==> (ok <==> s.sks <= MaxSks)
      ensures Prerequisite? ==> (ok <==> s.hasPrerequisite)
    {
      match this
      case SksLimit => !(s.sks > MaxSks)
      case Prerequisite => s.hasPrerequisite
    }
  }

  datatype Option<T> = None | Some(value: T)

  /** Every rule of the list accepts the student. */
  predicate AllPass(rules: seq<Rule>, s: Student)
  {
    forall i :: 0 <= i < |rules| ==> rules[i].Validate(s)
  }

  /** The index of the first rule that rejects the student, or None when every
      rule accepts. This is the rule at which registration stops. */
  function FirstFailure(rules: seq<Rule>, s: Student): (r: Option<nat>)
    ensures r.None? <==> AllPass(rules, s)
    ensures r.Some? ==> r.value < |rules| && !rules[r.value].Validate(s)
    ensures r.Some? ==> forall j :: 0 <= j < r.value ==> rules[j].Validate(s)
  {
    if rules == [] then None
    else if !rules[0].Validate(s) then Some(0)
    else
      match FirstFailure(rules[1..], s)
      case None => None
      case Some(k) => Some(k + 1)
  }

  // ----- The two rules -----

  /** The limit is inclusive: 24 units pass, 25 fail. */
  lemma SksLimitInclusive(name: string, prereq: bool)
    ensures SksLimit.Validate(Student(name, 24, prereq))
    ensures !SksLimit.Validate(Student(name, 25, prereq))
  {
  }

  /** Each rule's verdict depends only on its own field: the name never matters, the
      credit-limit rule ignores the prerequisite flag and the prerequisite rule
      ignores the credit load. */
  lemma RulesReadOnlyTheirField(s: Student, t: Student)
    ensures s.sks == t.sks ==> (SksLimit.Validate(s) <==> SksLimit.Validate(t))
    ensures s.hasPrerequisite == t.hasPrerequisite ==> (Prerequisite.Validate(s) <==> Prerequisite.Validate(t))
  {
  }

  // ----- Properties of evaluating a rule list -----

  /** Short-circuit: once a prefix of the list has rejected the student, the
      rules after it never change where evaluation stops; when the prefix
      accepts, evaluation continues into the rest, shifted by the prefix length. */
  lemma {:induction false} FirstFailureAppend(front: seq<Rule>, back: seq<Rule>, s: Student)
    ensures FirstFailure(front, s).Some? ==> FirstFailure(front + back, s) == FirstFailure(front, s)
    ensures FirstFailure(front, s).None? ==>
      FirstFailure(front + back, s) ==
        match FirstFailure(back, s)
        case None => None
        case Some(k) => Some(|front| + k)
  {
    if front != [] {
      assert (front + back)[0] == front[0];
      assert (front + back)[1..] == front[1..] + back;
      FirstFailureAppend(front[1..], back, s);
    } else {
      assert front + back == back;
    }
  }

  /** Whether registration succeeds depends only on which rules the list
      holds, not on their order nor on how often each is repeated. */
  lemma AllPassIgnoresOrder(r1: seq<Rule>, r2: seq<Rule>, s: Student)
    requires forall r :: r in r1 <==> r in r2
    ensures AllPass(r1, s) <==> AllPass(r2, s)
  {
    if AllPass(r1, s) {
      forall j | 0 <= j < |r2| ensures r2[j].Validate(s) {
        assert r2[j] in r1;
      }
    }
    if AllPass(r2, s) {
      forall j | 0 <= j < |r1| ensures r1[j].Validate(s) {
        assert r1[j] in r2;
      }
    }
  }

  /** With the program's wiring, credit limit then prerequisite, registration
      succeeds exactly for students within the limit who have the prerequisite;
      a student over the limit is rejected by the first rule whatever the
      prerequisite flag, and one within the limit without the prerequisite by
      the second. */
  lemma StandardWiring(s: Student)
    ensures AllPass([SksLimit, Prerequisite], s) <==> s.sks <= MaxSks && s.hasPrerequisite
    ensures FirstFailure([SksLimit, Prerequisite], s) == Some(0) <==> s.sks > MaxSks
    ensures FirstFailure([SksLimit, Prerequisite], s) == Some(1) <==> s.sks <= MaxSks && !s.hasPrerequisite
  {
    var wiring := [SksLimit, Prerequisite];
    assert wiring[0] == SksLimit && wiring[1] == Prerequisite;
  }

  /** Order decides which rule rejects a student: one failing both rules is
      rejected by whichever rule the list puts first, while the outcome is the
      same either way. */
  lemma OrderDecidesRejectingRule(s: Student)
    requires s.sks > MaxSks && !s.hasPrerequisite
    ensures var r := [SksLimit, Prerequisite];
      FirstFailure(r, s).Some? && r[FirstFailure(r, s).value] == SksLimit
    ensures var r := [Prerequisite, SksLimit];
      FirstFailure(r, s).Some? && r[FirstFailure(r, s).value] == Prerequisite
    ensures !AllPass([SksLimit, Prerequisite], s) && !AllPass([Prerequisite, SksLimit], s)
  {
  }

  // ----- The service -----

  /** Holds an ordered list of rules, fixed when the service is built. */
  class RegistrationService {
    const rules: seq<Rule>

    constructor (rules: seq<Rule>)
      ensures this.rules == rules
    {
      this.rules := rules;
    }

    /** Runs the rules in list order and stops at the first that rejects the
        student. `evaluated` counts the rules consulted, so the rules at index
        `evaluated` and later were never asked. Nothing is modified. */
    method Register(s: Student) returns (ok: bool, ghost evaluated: nat)
      ensures ok <==> AllPass(rules, s)
      ensures ok ==> evaluated == |rules|
      ensures !ok ==> 0 < evaluated <= |rules| && FirstFailure(rules, s) == Some(evaluated - 1)
    {
      evaluated := 0;
      var i := 0;
      while i < |rules|
        invariant 0 <= i <= |rules|
        invariant evaluated == i
        invariant forall j :: 0 <= j < i ==> rules[j].Validate(s)
      {
        evaluated := evaluated + 1;
        if !rules[i].Validate(s) {
          ok := false;
          return;
        }
        i := i + 1;
      }
      ok := true;
    }
  }

  /** The program's own wiring and sample students, plus the boundary student
      at exactly 24 units and a service without rules. Returns each verdict
      and, as ghosts, how many rules each call consulted. */
  method Demonstration() returns (andi: bool, budi: bool, cici: bool, anyone: bool,
                                  ghost andiAsked: nat, ghost budiAsked: nat,
                                  ghost ciciAsked: nat, ghost anyoneAsked: nat)
    ensures andi && andiAsked == 2
    ensures !budi && budiAsked == 1  // the prerequisite rule is never asked
    ensures !cici && ciciAsked == 2  // passes the limit, fails the prerequisite
    ensures anyone && anyoneAsked == 0
  {
    var service := new RegistrationService([SksLimit, Prerequisite]);
    StandardWiring(Student("Andi", 20, true));
    StandardWiring(Student("Budi", 26, false));
    StandardWiring(Student("Cici", 24, false));

    andi, andiAsked := service.Register(Student("Andi", 20, true));
    budi, budiAsked := service.Register(Student("Budi", 26, false));
    cici, ciciAsked := service.Register(Student("Cici", 24, false));

    var empty := new RegistrationService([]);
    anyone, anyoneAsked := empty.Register(Student("", 99, false));
  }
}
