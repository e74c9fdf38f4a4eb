/**
 * The result list of a check run (internal/tool/result.go): results are
 * appended one at a time, can be asked whether any is an error, and are
 * filtered against the configured ignore list. The mutex around the list
 * is not modelled; every operation runs alone.
 */
module ToolResult {
  import opened Text

  /** One finding: the checked file, the line of the issue, its text, its severity and its identifier. */
  datatype CheckResult = CheckResult(path: string, line: int, message: string, severity: string, identifier: string)

  /** An entry of the configured ignore list; an empty field imposes nothing. */
  datatype ToolConfigIgnore = ToolConfigIgnore(identifier: string, path: string, message: string)

  /** The ignore's path is empty or names the result's file. */
  predicate PathMatches(ig: ToolConfigIgnore, r: CheckResult) {
    r.path == ig.path || ig.path == ""
  }

  /** The two ways an ignore drops a result: by identifier, or by a message fragment. */
  predicate Suppresses(ig: ToolConfigIgnore, r: CheckResult) {
    || (ig.identifier != "" && r.identifier == ig.identifier && PathMatches(ig, r))
    || (ig.message != "" && Contains(r.message, ig.message) && PathMatches(ig, r))
  }

  predicate Ignored(r: CheckResult, ignores: seq<ToolConfigIgnore>) {
    exists j :: 0 <= j < |ignores| && Suppresses(ignores[j], r)
  }

  /** The results no ignore drops, in their original order. */
  function Kept(rs: seq<CheckResult>, ignores: seq<ToolConfigIgnore>): seq<CheckResult>
    decreases |rs|
  {
    if rs == [] then []
    else Kept(rs[..|rs| - 1], ignores) + (if Ignored(rs[|rs| - 1], ignores) then [] else [rs[|rs| - 1]])
  }

  /** `a` is `b` with some elements left out. */
  predicate Subsequence(a: seq<CheckResult>, b: seq<CheckResult>)
    decreases |b|
  {
    if b == [] then a == []
    else
      || (a != [] && a[|a| - 1] == b[|b| - 1] && Subsequence(a[..|a| - 1], b[..|b| - 1]))
      || Subsequence(a, b[..|b| - 1])
  }

  predicate IsError(r: CheckResult) {
    r.severity == "error"
  }

  class Check {
    var results: seq<CheckResult>

    /** NewCheck: an empty result list. */
    constructor ()
      ensures results == []
    {
      results := [];
    }

    method AddResult(r: CheckResult)
      modifies this
      ensures results == old(results) + [r]
    {
      results := results + [r];
    }

    /** Whether some result has severity exactly `error`. */
    method HasErrors() returns (b: bool)
      ensures b <==> exists i :: 0 <= i < |results| && IsError(results[i])
    {
      for i := 0 to |results|
        invariant forall k :: 0 <= k < i ==> !IsError(results[k])
      {
        if results[i].severity == "error" {
          return true;
        }
      }
      return false;
    }

    /** Drops every result some ignore suppresses; returns the receiver. */
    method RemoveByIdentifier(ignores: seq<ToolConfigIgnore>) returns (c: Check)
      modifies this
      ensures results == Kept(old(results), ignores)
      ensures c == this
    {
      var rs := results;
      var filtered: seq<CheckResult> := [];
      for i := 0 to |rs|
        invariant filtered == Kept(rs[..i], ignores)
      {
        var r := rs[i];
        var shouldKeep := ShouldKeep(r, ignores);
        assert rs[..i + 1][..i] == rs[..i];
        if shouldKeep {
          filtered := filtered + [r];
        }
      }
      assert rs[..|rs|] == rs;
      results := filtered;
      return this;
    }
  }

  /** The inner loop of RemoveByIdentifier: the first ignore that suppresses `r` ends it. */
  method ShouldKeep(r: CheckResult, ignores: seq<ToolConfigIgnore>) returns (shouldKeep: bool)
    ensures shouldKeep <==> !Ignored(r, ignores)
  {
    shouldKeep := true;
    var j := 0;
    while j < |ignores|
      invariant 0 <= j <= |ignores|
      invariant forall l :: 0 <= l < j ==> !Suppresses(ignores[l], r)
    {
      var ignore := ignores[j];
      if ignore.identifier != "" && r.identifier == ignore.identifier && (r.path == ignore.path || ignore.path == "") {
        shouldKeep := false;
        break;
      }
      if ignore.message != "" && Contains(r.message, ignore.message) && (r.path == ignore.path || ignore.path == "") {
        shouldKeep := false;
        break;
      }
      j := j + 1;
    }
  }

  /** Filtering works piece by piece, so the survivors keep their relative order. */
  lemma {:induction false} KeptAppend(a: seq<CheckResult>, b: seq<CheckResult>, ignores: seq<ToolConfigIgnore>)
    ensures Kept(a + b, ignores) == Kept(a, ignores) + Kept(b, ignores)
    decreases |b|
  {
    if b == [] {
      assert a + b == a;
    } else {
      var b' := b[..|b| - 1];
      assert (a + b)[..|a + b| - 1] == a + b';
      KeptAppend(a, b', ignores);
    }
  }

  /** A result survives exactly when it is one of the results and no ignore suppresses it. */
  lemma {:induction false} KeptMembers(rs: seq<CheckResult>, ignores: seq<ToolConfigIgnore>, x: CheckResult)
    ensures x in Kept(rs, ignores) <==> x in rs && !Ignored(x, ignores)
    decreases |rs|
  {
    if rs != [] {
      var rs' := rs[..|rs| - 1];
      KeptMembers(rs', ignores, x);
      assert rs == rs' + [rs[|rs| - 1]];
    }
  }

  /** The survivors are a subsequence of the results. */
  lemma {:induction false} KeptSubsequence(rs: seq<CheckResult>, ignores: seq<ToolConfigIgnore>)
    ensures Subsequence(Kept(rs, ignores), rs)
    decreases |rs|
  {
    if rs != [] {
      var rs' := rs[..|rs| - 1];
      KeptSubsequence(rs', ignores);
      var k := Kept(rs, ignores);
      if Ignored(rs[|rs| - 1], ignores) {
        assert k == Kept(rs', ignores);
      } else {
        assert k == Kept(rs', ignores) + [rs[|rs| - 1]];
        assert k[..|k| - 1] == Kept(rs', ignores);
      }
    }
  }

  /** An ignore list whose entries all have an empty identifier and an empty message keeps every result. */
  lemma {:induction false} KeptBlankIgnores(rs: seq<CheckResult>, ignores: seq<ToolConfigIgnore>)
    requires forall j :: 0 <= j < |ignores| ==> ignores[j].identifier == "" && ignores[j].message == ""
    ensures Kept(rs, ignores) == rs
    decreases |rs|
  {
    if rs != [] {
      var rs', last := rs[..|rs| - 1], rs[|rs| - 1];
      KeptBlankIgnores(rs', ignores);
      assert !Ignored(last, ignores);
      assert Kept(rs, ignores) == Kept(rs', ignores) + [last];
      assert rs' + [last] == rs;
    }
  }
}
