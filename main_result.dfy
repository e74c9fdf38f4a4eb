/**
 * The command's own result list (result.go of the main package): the same
 * record shape as the tool package's, collected by appending. The mutex
 * around the list is not modelled.
 */
module MainResult {

  /** One finding: the checked file, the line of the issue, its text, its severity and its identifier. */
  datatype CheckResult = CheckResult(path: string, line: int, message: string, severity: string, identifier: string)

  class Check {
    var results: seq<CheckResult>

    /** newCheck: an empty result list. */
    constructor ()
      ensures results == []
    {
      results := [];
    }

    /** The list grows by one, the new result is last, and the earlier ones are unchanged. */
    method AddResult(r: CheckResult)
      modifies this
      ensures results == old(results) + [r]
      ensures |results| == |old(results)| + 1
      ensures results[|results| - 1] == r
      ensures results[..|old(results)|] == old(results)
    {
      results := results + [r];
    }
  }
}
