/** The values a route handler answers with: a success reply carrying the new
    store and the JSON body, or one of the failure responses the two routers
    send. Shared by the profile and the post routers. */
module Responses {

  datatype Option<+T> = None | Some(value: T)

  /** One element of the `errors` array of a 400 validation response: the field
      and its message (the `value` and `location` it also carries are left out). */
  datatype FieldError = FieldError(param: string, msg: string)

  /** How a handler can fail.
      - Invalid: the express-validator checks failed (400 with every violation).
      - Refused: the handler itself answered `res.status(code).json({ msg })`.
      - ServerError: an exception reached the catch block (500); in this code that
        is a property read on a missing document or a rejected insert. */
  datatype Failure =
    | Invalid(errors: seq<FieldError>)
    | Refused(code: int, msg: string)
    | ServerError
  {
    function Status(): int {
      match this
      case Invalid(_) => 400
      case Refused(code, _) => code
      case ServerError => 500
    }
  }

  datatype Result<+T> = Ok(value: T) | Err(error: Failure)

  /** A successful handler run: the store after the request and the JSON body sent. */
  datatype Reply<+S, +B> = Reply(state: S, body: B)

  /** A `check(param, msg).not().isEmpty()` rule, paired with the submitted value
      (a field the client left out is the empty string). */
  datatype Rule = Rule(param: string, value: string, msg: string)

  function ErrorOf(rule: Rule): FieldError {
    FieldError(rule.param, rule.msg)
  }

  /** `validationResult(req).array()`: one error per failed rule, in rule order. */
  function Violations(rules: seq<Rule>): (errs: seq<FieldError>)
    ensures |errs| <= |rules|
    ensures |errs| == 0 <==> forall i :: 0 <= i < |rules| ==> rules[i].value != ""
  {
    if |rules| == 0 then []
    else
      var rest := Violations(rules[1..]);
      if rules[0].value == "" then [ErrorOf(rules[0])] + rest else rest
  }

  /** The error a single rule contributes: its own if it fails, none otherwise. */
  function Reported(rule: Rule): (errs: seq<FieldError>)
    ensures errs == [] <==> rule.value != ""
    ensures errs != [] ==> errs == [FieldError(rule.param, rule.msg)]
  {
    if rule.value == "" then [ErrorOf(rule)] else []
  }

  /** The errors of a rule list: the first rule's error, if it fails, before
      the errors of the rest. */
  lemma ViolationsCons(rule: Rule, rest: seq<Rule>)
    ensures Violations([rule] + rest) == Reported(rule) + Violations(rest)
  {
    assert ([rule] + rest)[1..] == rest;
  }

  /** The errors of four rules, one rule at a time in order. */
  lemma {:induction false} ViolationsOfFour(a: Rule, b: Rule, c: Rule, d: Rule)
    ensures Violations([a, b, c, d]) == Reported(a) + (Reported(b) + (Reported(c) + Reported(d)))
  {
    var v4 := Violations([d]);
    ViolationsCons(d, []);
    assert [d] + [] == [d];
    assert v4 == Reported(d);
    var v3 := Violations([c, d]);
    ViolationsCons(c, [d]);
    assert [c] + [d] == [c, d];
    var v2 := Violations([b, c, d]);
    ViolationsCons(b, [c, d]);
    assert [b] + [c, d] == [b, c, d];
    ViolationsCons(a, [b, c, d]);
    assert [a] + [b, c, d] == [a, b, c, d];
  }

  /** The errors of three rules, one rule at a time in order. */
  lemma {:induction false} ViolationsOfThree(a: Rule, b: Rule, c: Rule)
    ensures Violations([a, b, c]) == Reported(a) + (Reported(b) + Reported(c))
  {
    ViolationsCons(c, []);
    assert [c] + [] == [c];
    ViolationsCons(b, [c]);
    assert [b] + [c] == [b, c];
    ViolationsCons(a, [b, c]);
    assert [a] + [b, c] == [a, b, c];
  }

  /** Every failed rule is reported, and only failed rules are. */
  lemma {:induction false} ViolationsReportEveryFailure(rules: seq<Rule>)
    ensures forall i :: 0 <= i < |rules| && rules[i].value == "" ==> ErrorOf(rules[i]) in Violations(rules)
    ensures forall e :: e in Violations(rules) ==>
      exists i :: 0 <= i < |rules| && rules[i].value == "" && e == ErrorOf(rules[i])
  {
    if |rules| > 0 {
      var rest := Violations(rules[1..]);
      ViolationsReportEveryFailure(rules[1..]);
      forall i | 1 <= i < |rules| && rules[i].value == "" ensures ErrorOf(rules[i]) in Violations(rules) {
        assert rules[1..][i - 1] == rules[i];
      }
      forall e | e in rest
        ensures exists i :: 0 <= i < |rules| && rules[i].value == "" && e == ErrorOf(rules[i])
      {
        var j :| 0 <= j < |rules[1..]| && rules[1..][j].value == "" && e == ErrorOf(rules[1..][j]);
        assert rules[j + 1] == rules[1..][j];
      }
    }
  }
}
