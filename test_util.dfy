/** `Test::pass`, the verdict string the filter's tests report. */
module Test {

  /** "SUCCESS" for a passing status and "FAILURE" for a failing one. */
  function Pass(successStatus: bool): (r: string)
    ensures successStatus <==> r == "SUCCESS"
    ensures !successStatus <==> r == "FAILURE"
  {
    if successStatus then "SUCCESS" else "FAILURE"
  }

  /** Distinct statuses give distinct verdicts. */
  lemma PassInjective(a: bool, b: bool)
    requires Pass(a) == Pass(b)
    ensures a == b
  {
  }
}
