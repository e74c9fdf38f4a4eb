/**
 * Choosing the tools a command runs (filterTools in cmd_shared.go). A tool
 * is any value with a name; the name accessor is a parameter, since the
 * tool interface that declares it is not part of this model.
 */
module CmdShared {
  import opened Wrappers
  import opened Text

  /** The names asked for: the option split at every comma, each piece trimmed. */
  function Requested(only: string): seq<string> {
    TrimAll(Split(only, ','))
  }

  function TrimAll(parts: seq<string>): (r: seq<string>)
    ensures |r| == |parts|
    decreases |parts|
  {
    if parts == [] then [] else [TrimSpace(parts[0])] + TrimAll(parts[1..])
  }

  /** Each requested name is its piece of the option with the surrounding space removed. */
  lemma {:induction false} TrimAllAt(parts: seq<string>, i: int)
    requires 0 <= i < |parts|
    ensures TrimAll(parts)[i] == TrimSpace(parts[i])
    decreases i
  {
    if i > 0 {
      TrimAllAt(parts[1..], i - 1);
    }
  }

  /** The first tool carrying a name, if any does. */
  function FirstNamed<T>(tools: seq<T>, name: T -> string, n: string): Option<T>
    decreases |tools|
  {
    if tools == [] then None
    else if name(tools[0]) == n then Some(tools[0])
    else FirstNamed(tools[1..], name, n)
  }

  /** The tool at `j` is found when it has the name and no earlier tool has. */
  lemma {:induction false} FirstNamedAt<T>(tools: seq<T>, name: T -> string, n: string, j: int)
    requires 0 <= j < |tools| && name(tools[j]) == n
    requires forall l :: 0 <= l < j ==> name(tools[l]) != n
    ensures FirstNamed(tools, name, n) == Some(tools[j])
    decreases j
  {
    if j > 0 {
      FirstNamedAt(tools[1..], name, n, j - 1);
    }
  }

  /** Nothing is found when no tool has the name. */
  lemma {:induction false} FirstNamedNone<T>(tools: seq<T>, name: T -> string, n: string)
    requires forall l :: 0 <= l < |tools| ==> name(tools[l]) != n
    ensures FirstNamed(tools, name, n) == None
    decreases |tools|
  {
    if tools != [] {
      FirstNamedNone(tools[1..], name, n);
    }
  }

  /** The search finds nothing exactly when no tool has the name, and otherwise the first one that has it. */
  lemma {:induction false} FirstNamedMeaning<T>(tools: seq<T>, name: T -> string, n: string)
    ensures FirstNamed(tools, name, n).None? <==> forall i :: 0 <= i < |tools| ==> name(tools[i]) != n
    ensures FirstNamed(tools, name, n).Some? ==> exists i :: (0 <= i < |tools| && tools[i] == FirstNamed(tools, name, n).value &&
      name(tools[i]) == n && forall j :: 0 <= j < i ==> name(tools[j]) != n)
    decreases |tools|
  {
    if tools != [] && name(tools[0]) != n {
      var rest := tools[1..];
      FirstNamedMeaning(rest, name, n);
      assert forall i :: 1 <= i < |tools| ==> tools[i] == rest[i - 1];
      if FirstNamed(rest, name, n).Some? {
        var i :| 0 <= i < |rest| && rest[i] == FirstNamed(rest, name, n).value &&
          name(rest[i]) == n && forall j :: 0 <= j < i ==> name(rest[j]) != n;
        assert tools[i + 1] == rest[i];
      }
    } else if tools != [] {
      assert tools[0] == FirstNamed(tools, name, n).value;
    }
  }

  /**
   * fmt's %q on a byte string: quotes around it, with a backslash in
   * front of a quote and of a backslash, the short escapes for the
   * control bytes that have one and \xNN for the others.
   */
  function QuoteByte(c: char): (r: string)
    ensures |r| >= 1
    ensures r[0] == '\\' || r == [c]
    ensures c != '"' && c != '\\' && ' ' <= c && c as int != 127 ==> r == [c]
  {
    if c == '"' || c == '\\' then ['\\', c]
    else if c as int == 7 then "\\a"
    else if c as int == 8 then "\\b"
    else if c as int == 12 then "\\f"
    else if c == '\n' then "\\n"
    else if c == '\r' then "\\r"
    else if c == '\t' then "\\t"
    else if c as int == 11 then "\\v"
    else if c < ' ' || c as int == 127 then "\\x" + [HexDigit(c as int / 16), HexDigit(c as int % 16)]
    else [c]
  }

  function QuoteBody(s: string): string
    decreases |s|
  {
    if s == [] then [] else QuoteByte(s[0]) + QuoteBody(s[1..])
  }

  function Quote(s: string): string {
    "\"" + QuoteBody(s) + "\""
  }

  /** A name made only of printable bytes other than quote and backslash is quoted unchanged. */
  lemma {:induction false} QuotePlain(s: string)
    requires forall k :: 0 <= k < |s| ==> s[k] != '"' && s[k] != '\\' && ' ' <= s[k] && s[k] as int != 127
    ensures QuoteBody(s) == s
    decreases |s|
  {
    if s != [] {
      QuotePlain(s[1..]);
      assert [s[0]] + s[1..] == s;
    }
  }

  function NotFound(n: string): string {
    "tool with name " + Quote(n) + " not found"
  }

  /**
   * The first `n` requested names, each resolved to the first tool of
   * that name, one after another; the first name no tool carries is the
   * error.
   */
  function Pick<T>(tools: seq<T>, name: T -> string, reqs: seq<string>, n: nat): Result<seq<T>, string>
    requires n <= |reqs|
    decreases n
  {
    if n == 0 then Ok([])
    else
      match Pick(tools, name, reqs, n - 1)
      case Err(e) => Err(e)
      case Ok(acc) =>
        match FirstNamed(tools, name, reqs[n - 1])
        case None => Err(NotFound(reqs[n - 1]))
        case Some(t) => Ok(acc + [t])
  }

  /** Once the first `m` names fail, all of them fail the same way. */
  lemma {:induction false} PickErrLasts<T>(tools: seq<T>, name: T -> string, reqs: seq<string>, m: nat, e: string)
    requires m <= |reqs|
    requires Pick(tools, name, reqs, m) == Err(e)
    ensures Pick(tools, name, reqs, |reqs|) == Err(e)
    decreases |reqs| - m
  {
    if m < |reqs| {
      PickErrLasts(tools, name, reqs, m + 1, e);
    }
  }

  function Filtered<T>(tools: seq<T>, name: T -> string, only: string): Result<seq<T>, string> {
    if only == "" then Ok(tools) else Pick(tools, name, Requested(only), |Requested(only)|)
  }

  predicate Known<T>(tools: seq<T>, name: T -> string, n: string) {
    FirstNamed(tools, name, n).Some?
  }

  /** Resolving the first `n` pieces succeeds exactly when every one of them names a tool. */
  lemma {:induction false} PickOk<T>(tools: seq<T>, name: T -> string, reqs: seq<string>, n: nat)
    requires n <= |reqs|
    ensures Pick(tools, name, reqs, n).Ok? <==> forall k :: 0 <= k < n ==> Known(tools, name, reqs[k])
    decreases n
  {
    if n > 0 {
      PickOk(tools, name, reqs, n - 1);
      var last := reqs[n - 1];
      if Pick(tools, name, reqs, n - 1).Ok? && Known(tools, name, last) {
        assert Pick(tools, name, reqs, n).Ok?;
      } else if Pick(tools, name, reqs, n - 1).Ok? {
        assert !Pick(tools, name, reqs, n).Ok?;
      } else {
        assert !Pick(tools, name, reqs, n).Ok?;
        var k :| 0 <= k < n - 1 && !Known(tools, name, reqs[k]);
      }
    }
  }

  /** A successful resolution yields, piece by piece, the first tool each piece names. */
  lemma {:induction false} PickValues<T>(tools: seq<T>, name: T -> string, reqs: seq<string>, n: nat)
    requires n <= |reqs| && Pick(tools, name, reqs, n).Ok?
    ensures |Pick(tools, name, reqs, n).value| == n
    ensures forall k :: 0 <= k < n ==> FirstNamed(tools, name, reqs[k]) == Some(Pick(tools, name, reqs, n).value[k])
    decreases n
  {
    if n > 0 {
      PickValues(tools, name, reqs, n - 1);
    }
  }

  /** A failed resolution names the first piece that names no tool. */
  lemma {:induction false} PickError<T>(tools: seq<T>, name: T -> string, reqs: seq<string>, n: nat)
    requires n <= |reqs| && Pick(tools, name, reqs, n).Err?
    ensures exists k :: (0 <= k < n && !Known(tools, name, reqs[k]) &&
      (forall l :: 0 <= l < k ==> Known(tools, name, reqs[l])) &&
      Pick(tools, name, reqs, n).error == NotFound(reqs[k]))
    decreases n
  {
    var prev := Pick(tools, name, reqs, n - 1);
    if prev.Err? {
      PickError(tools, name, reqs, n - 1);
      assert Pick(tools, name, reqs, n).error == prev.error;
    } else {
      PickOk(tools, name, reqs, n - 1);
      var k := n - 1;
      assert !Known(tools, name, reqs[k]);
      assert Pick(tools, name, reqs, n).error == NotFound(reqs[k]);
    }
  }

  /**
   * With an option given, filterTools succeeds exactly when every
   * requested name names a tool; it then returns one tool per
   * comma-separated piece, in the order asked, each the first tool so named.
   */
  lemma FilteredOk<T>(tools: seq<T>, name: T -> string, only: string)
    requires only != ""
    ensures Filtered(tools, name, only).Ok? <==> forall k :: 0 <= k < |Requested(only)| ==> Known(tools, name, Requested(only)[k])
    ensures Filtered(tools, name, only).Ok? ==> |Filtered(tools, name, only).value| == |Requested(only)| == Count(only, ',') + 1
    ensures Filtered(tools, name, only).Ok? ==> forall k :: 0 <= k < |Requested(only)| ==>
      FirstNamed(tools, name, Requested(only)[k]) == Some(Filtered(tools, name, only).value[k])
  {
    var reqs := Requested(only);
    PickOk(tools, name, reqs, |reqs|);
    if Pick(tools, name, reqs, |reqs|).Ok? {
      PickValues(tools, name, reqs, |reqs|);
    }
    SplitJoin(only, ',');
  }

  /** Otherwise the error names the first requested name that names no tool. */
  lemma FilteredErr<T>(tools: seq<T>, name: T -> string, only: string)
    requires only != "" && Filtered(tools, name, only).Err?
    ensures exists k :: (0 <= k < |Requested(only)| && !Known(tools, name, Requested(only)[k]) &&
      (forall l :: 0 <= l < k ==> Known(tools, name, Requested(only)[l])) &&
      Filtered(tools, name, only).error == NotFound(Requested(only)[k]))
  {
    PickError(tools, name, Requested(only), |Requested(only)|);
  }

  /** The k-th requested name is the k-th piece of the option with the surrounding space removed. */
  lemma RequestedAt(only: string, k: int)
    requires 0 <= k < |Split(only, ',')|
    ensures |Requested(only)| == |Split(only, ',')| && Requested(only)[k] == TrimSpace(Split(only, ',')[k])
  {
    TrimAllAt(Split(only, ','), k);
  }

  /** The inner loop of filterTools: the first tool with the requested name, if there is one. */
  method FindTool<T>(tools: seq<T>, name: T -> string, requestedTool: string) returns (found: Option<T>)
    ensures found == FirstNamed(tools, name, requestedTool)
  {
    found := None;
    var j := 0;
    while j < |tools|
      invariant 0 <= j <= |tools|
      invariant forall l :: 0 <= l < j ==> name(tools[l]) != requestedTool
    {
      if name(tools[j]) == requestedTool {
        found := Some(tools[j]);
        FirstNamedAt(tools, name, requestedTool, j);
        return;
      }
      j := j + 1;
    }
    FirstNamedNone(tools, name, requestedTool);
  }

  /** filterTools: the outer loop over the requested names, the inner one over the tools. */
  method FilterTools<T>(tools: seq<T>, name: T -> string, only: string) returns (r: Result<seq<T>, string>)
    ensures r == Filtered(tools, name, only)
  {
    if only == "" {
      return Ok(tools);
    }
    var filteredTools: seq<T> := [];
    var requestedTools := Split(only, ',');
    ghost var reqs := Requested(only);
    for i := 0 to |requestedTools|
      invariant Pick(tools, name, reqs, i) == Ok(filteredTools)
    {
      var requestedTool := TrimSpace(requestedTools[i]);
      RequestedAt(only, i);
      var found := FindTool(tools, name, requestedTool);
      if found.None? {
        PickErrLasts(tools, name, reqs, i + 1, NotFound(requestedTool));
        return Err(NotFound(requestedTool));
      }
      filteredTools := filteredTools + [found.value];
    }
    return Ok(filteredTools);
  }
}
