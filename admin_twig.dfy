/**
 * The per-file work of the admin template linter (internal/tool/admin_twig.go):
 * Check parses a `.twig` file and turns every diagnostic of every selected
 * rule into a result of the run; Fix parses it, applies every selected rule
 * to the same tree in order, and writes the concatenated dumps back. The
 * directory walk and the file system are outside this model: the path,
 * the outcome of reading the file, and the list of rules GetFixers selects
 * are parameters, and the text to write is returned.
 */
module AdminTwig {
  import opened Wrappers
  import opened Text
  import opened Html
  import HtmlParserSpec
  import HtmlParser
  import opened FixerCommon
  import opened Fixers
  import opened ToolResult

  // ------------------------------------------------------------ paths

  /**
   * filepath.Ext with '/' as the separator: the suffix of the last path
   * element starting at its last '.', or "" when that element has no '.'.
   */
  function Ext(path: string): (r: string)
    decreases |path|
  {
    if path == [] || path[|path| - 1] == '/' then ""
    else if path[|path| - 1] == '.' then "."
    else
      var e := Ext(path[..|path| - 1]);
      if e == "" then "" else e + [path[|path| - 1]]
  }

  predicate HasSuffix(s: string, suffix: string) {
    |suffix| <= |s| && s[|s| - |suffix|..] == suffix
  }

  /**
   * What Ext returns: either "" and no '.' follows the last '/', or a
   * suffix of the path that starts with its only '.' and holds no '/'.
   */
  lemma {:induction false} ExtMeaning(path: string)
    ensures Ext(path) == "" <==> forall i :: 0 <= i < |path| && path[i] == '.' ==> exists j :: i < j < |path| && path[j] == '/'
    ensures Ext(path) != "" ==> (
      && HasSuffix(path, Ext(path)) && Ext(path)[0] == '.'
      && forall k :: 0 <= k < |Ext(path)| ==> Ext(path)[k] != '/' && (k > 0 ==> Ext(path)[k] != '.'))
    decreases |path|
  {
    if path != [] && path[|path| - 1] != '/' && path[|path| - 1] != '.' {
      var init := path[..|path| - 1];
      var c := path[|path| - 1];
      ExtMeaning(init);
      var e := Ext(init);
      if e == "" {
        forall i | 0 <= i < |path| && path[i] == '.' ensures exists j :: i < j < |path| && path[j] == '/' {
          assert init[i] == '.';
          var j :| i < j < |init| && init[j] == '/';
          assert path[j] == '/';
        }
      } else {
        var r := e + [c];
        assert path[|path| - |r|..] == init[|init| - |e|..] + [c];
        assert path[|path| - |r| + |e| - 1] == r[|e| - 1];
        var i := |path| - |r|;
        assert path[i] == '.';
        forall j | i < j < |path| ensures path[j] != '/' {
          assert path[j] == r[j - i];
        }
      }
    } else if path != [] && path[|path| - 1] == '.' {
      var i := |path| - 1;
      assert path[i] == '.';
    }
  }

  lemma {:induction false} ExtSuffix(path: string)
    ensures HasSuffix(path, Ext(path))
    decreases |path|
  {
    if path != [] && path[|path| - 1] != '/' && path[|path| - 1] != '.' {
      var init := path[..|path| - 1];
      ExtSuffix(init);
      var e := Ext(init);
      if e != "" {
        assert path[|path| - |e| - 1..] == init[|init| - |e|..] + [path[|path| - 1]];
      }
    }
  }

  /** The extension of a path ending in a dot and a word without '/' or '.' is that dot and word. */
  lemma {:induction false} ExtDotted(p: string, w: string)
    requires forall k :: 0 <= k < |w| ==> w[k] != '/' && w[k] != '.'
    ensures Ext(p + "." + w) == "." + w
    decreases |w|
  {
    if w == [] {
      assert p + "." + w == p + ".";
    } else {
      var w' := w[..|w| - 1];
      ExtDotted(p, w');
      var s := p + "." + w;
      assert s[..|s| - 1] == p + "." + w';
      assert "." + w' + [w[|w| - 1]] == "." + w;
    }
  }

  /** A path has the `.twig` extension exactly when it ends with `.twig`. */
  lemma TwigExt(path: string)
    ensures Ext(path) == ".twig" <==> HasSuffix(path, ".twig")
  {
    ExtSuffix(path);
    if HasSuffix(path, ".twig") {
      var p := path[..|path| - 5];
      assert path == p + "." + "twig";
      ExtDotted(p, "twig");
    }
  }

  /** The path a result reports: a leading `/private`, then the extension directory, cut off. */
  function ReportedPath(path: string, extPath: string): string {
    TrimPrefix(TrimPrefix(path, "/private"), extPath + "/")
  }

  /** A file inside the extension is reported relative to it, with or without the `/private` prefix. */
  lemma ReportedPathRelative(extPath: string, rel: string)
    requires !HasPrefix(extPath + "/" + rel, "/private")
    ensures ReportedPath(extPath + "/" + rel, extPath) == rel
    ensures ReportedPath("/private" + extPath + "/" + rel, extPath) == rel
  {
    var p := extPath + "/" + rel;
    assert ("/private" + p)[..8] == "/private";
    assert ("/private" + p)[8..] == p;
    assert "/private" + extPath + "/" + rel == "/private" + p;
    assert p[..|extPath + "/"|] == extPath + "/";
    assert p[|extPath + "/"|..] == rel;
  }

  // ---------------------------------------------------------- results

  /** The result a diagnostic becomes: the rule's message and severity, line 0, and a prefixed identifier. */
  function ToResult(d: CheckError, rel: string): CheckResult {
    CheckResult(rel, 0, d.message, d.severity, "admintwiglinter/" + d.identifier)
  }

  function ToResults(ds: seq<CheckError>, rel: string): (r: seq<CheckResult>)
    ensures |r| == |ds|
    ensures forall i :: 0 <= i < |ds| ==> r[i] == ToResult(ds[i], rel)
    decreases |ds|
  {
    if ds == [] then [] else ToResults(ds[..|ds| - 1], rel) + [ToResult(ds[|ds| - 1], rel)]
  }

  /**
   * The results of a parsed file: every rule's diagnostics in rule order,
   * each in its own order, where `msg` gives each rule's message. With
   * Fixers.Message, each rule's part is the result of its Check.
   */
  function FileResults(ks: seq<FixerKind>, msg: FixerKind -> string, ns: seq<Node>, rel: string): seq<CheckResult>
    decreases |ks|
  {
    if ks == [] then []
    else
      var k := ks[|ks| - 1];
      FileResults(ks[..|ks| - 1], msg, ns, rel) + ToResults(Diagnose(PreOrder(ns), OldTag(k), msg(k), WithLine(k)), rel)
  }

  /** The results of a file, as Check adds them, or the error that stops the walk. */
  function CheckOutcome(ks: seq<FixerKind>, path: string, extPath: string, file: Result<string, string>): Result<seq<CheckResult>, string> {
    if Ext(path) != ".twig" then Ok([])
    else match file
      case Err(e) => Err(e)
      case Ok(text) =>
        match HtmlParserSpec.Parse(text)
        case Err(pe) => Err("failed to parse " + path + ": " + HtmlParserSpec.Message(pe))
        case Ok(ns) => Ok(FileResults(ks, Fixers.Message, ns, ReportedPath(path, extPath)))
  }

  /**
   * The body of the walk in AdminTwigLinter.Check for one file: anything
   * but a `.twig` file is skipped; a read or parse failure stops with an
   * error (the parse error naming the file) and adds nothing; otherwise
   * one result per diagnostic is added, rules in list order.
   */
  method CheckFile(check: Check, ks: seq<FixerKind>, path: string, extPath: string, file: Result<string, string>)
    returns (err: Option<string>)
    modifies check
    ensures CheckOutcome(ks, path, extPath, file).Err? ==>
      err == Some(CheckOutcome(ks, path, extPath, file).error) && check.results == old(check.results)
    ensures CheckOutcome(ks, path, extPath, file).Ok? ==>
      err == None && check.results == old(check.results) + CheckOutcome(ks, path, extPath, file).value
  {
    if Ext(path) != ".twig" {
      return None;
    }
    if file.Err? {
      return Some(file.error);
    }
    var parsed := HtmlParser.NewParser(file.value);
    if parsed.Err? {
      return Some("failed to parse " + path + ": " + HtmlParserSpec.Message(parsed.error));
    }
    AddFileResults(check, ks, parsed.value, ReportedPath(path, extPath));
    return None;
  }

  /** The loop of Check over the selected rules, each rule's diagnostics added in order. */
  method AddFileResults(check: Check, ks: seq<FixerKind>, ns: seq<Node>, rel: string)
    modifies check
    ensures check.results == old(check.results) + FileResults(ks, Fixers.Message, ns, rel)
  {
    for i := 0 to |ks|
      invariant check.results == old(check.results) + FileResults(ks[..i], Fixers.Message, ns, rel)
    {
      assert ks[..i + 1][..i] == ks[..i];
      var messages := RunCheck(ks[i], ns);
      AddAll(check, messages, rel);
    }
    assert ks[..|ks|] == ks;
  }

  /** The inner loop of Check: one result per diagnostic, in order. */
  method AddAll(check: Check, messages: seq<CheckError>, rel: string)
    modifies check
    ensures check.results == old(check.results) + ToResults(messages, rel)
  {
    for j := 0 to |messages|
      invariant check.results == old(check.results) + ToResults(messages[..j], rel)
    {
      assert messages[..j + 1][..j] == messages[..j];
      var message := messages[j];
      check.AddResult(CheckResult(rel, 0, message.message, message.severity, "admintwiglinter/" + message.identifier));
    }
    assert messages[..|messages|] == messages;
  }

  lemma {:induction false} FileResultsAppend(a: seq<FixerKind>, b: seq<FixerKind>, msg: FixerKind -> string, ns: seq<Node>, rel: string)
    ensures FileResults(a + b, msg, ns, rel) == FileResults(a, msg, ns, rel) + FileResults(b, msg, ns, rel)
    decreases |b|
  {
    if b == [] {
      assert a + b == a;
    } else {
      var b' := b[..|b| - 1];
      assert (a + b)[..|a + b| - 1] == a + b';
      FileResultsAppend(a, b', msg, ns, rel);
    }
  }

  /**
   * Every result of a file is reported at line 0 under the file's reported
   * path, with severity "error", and carries the message and the prefixed
   * old tag of one of the selected rules.
   */
  lemma {:induction false} FileResultsShape(ks: seq<FixerKind>, msg: FixerKind -> string, ns: seq<Node>, rel: string)
    ensures forall i :: 0 <= i < |FileResults(ks, msg, ns, rel)| ==>
      exists j :: 0 <= j < |ks| && FileResults(ks, msg, ns, rel)[i] == CheckResult(rel, 0, msg(ks[j]), "error", "admintwiglinter/" + OldTag(ks[j]))
    decreases |ks|
  {
    if ks != [] {
      var init := ks[..|ks| - 1];
      var k := ks[|ks| - 1];
      FileResultsShape(init, msg, ns, rel);
      var a := FileResults(init, msg, ns, rel);
      var b := ToResults(Diagnose(PreOrder(ns), OldTag(k), msg(k), WithLine(k)), rel);
      DiagnosePerMatch(PreOrder(ns), OldTag(k), msg(k), WithLine(k));
      var r := FileResults(ks, msg, ns, rel);
      assert r == a + b;
      forall i | 0 <= i < |r| ensures exists j :: 0 <= j < |ks| && r[i] == CheckResult(rel, 0, msg(ks[j]), "error", "admintwiglinter/" + OldTag(ks[j])) {
        if i < |a| {
          var j :| 0 <= j < |init| && a[i] == CheckResult(rel, 0, msg(init[j]), "error", "admintwiglinter/" + OldTag(init[j]));
          assert r[i] == a[i] && ks[j] == init[j];
        } else {
          var m := i - |a|;
          var ds := Diagnose(PreOrder(ns), OldTag(k), msg(k), WithLine(k));
          assert r[i] == b[m] == ToResult(ds[m], rel);
          assert ds[m] == CheckError(msg(k), "error", OldTag(k), if WithLine(k) then Matching(PreOrder(ns), OldTag(k))[m].line else 0);
          assert ks[|ks| - 1] == k;
        }
      }
    } else {
      assert FileResults(ks, msg, ns, rel) == [];
    }
  }

  ghost predicate AllAbsent(ks: seq<FixerKind>, ns: seq<Node>) {
    forall i :: 0 <= i < |ks| ==> NoTag(PreOrder(ns), OldTag(ks[i]))
  }

  lemma AllAbsentLast(ks: seq<FixerKind>, ns: seq<Node>)
    requires ks != []
    ensures AllAbsent(ks, ns) <==> AllAbsent(ks[..|ks| - 1], ns) && NoTag(PreOrder(ns), OldTag(ks[|ks| - 1]))
  {
    var init := ks[..|ks| - 1];
    if AllAbsent(init, ns) && NoTag(PreOrder(ns), OldTag(ks[|ks| - 1])) {
      forall i | 0 <= i < |ks| ensures NoTag(PreOrder(ns), OldTag(ks[i])) {
        if i < |init| {
          assert ks[i] == init[i];
        }
      }
    }
    if AllAbsent(ks, ns) {
      forall i | 0 <= i < |init| ensures NoTag(PreOrder(ns), OldTag(init[i])) {
        assert init[i] == ks[i];
      }
    }
  }

  /** A file yields no result exactly when none of the selected rules' old tags occurs in it. */
  lemma {:induction false} FileResultsEmpty(ks: seq<FixerKind>, msg: FixerKind -> string, ns: seq<Node>, rel: string)
    ensures FileResults(ks, msg, ns, rel) == [] <==> AllAbsent(ks, ns)
    decreases |ks|
  {
    if ks != [] {
      var init := ks[..|ks| - 1];
      var k := ks[|ks| - 1];
      FileResultsEmpty(init, msg, ns, rel);
      var ds := Diagnose(PreOrder(ns), OldTag(k), msg(k), WithLine(k));
      DiagnoseEmpty(PreOrder(ns), OldTag(k), msg(k), WithLine(k));
      assert FileResults(ks, msg, ns, rel) == FileResults(init, msg, ns, rel) + ToResults(ds, rel);
      assert ToResults(ds, rel) == [] <==> ds == [];
      AllAbsentLast(ks, ns);
    }
  }

  /** The count of a file's results: each rule contributes one per element carrying its old tag. */
  lemma {:induction false} FileResultsCount(ks: seq<FixerKind>, msg: FixerKind -> string, ns: seq<Node>, rel: string)
    ensures |FileResults(ks, msg, ns, rel)| == MatchCount(ks, ns)
    decreases |ks|
  {
    if ks != [] {
      var k := ks[|ks| - 1];
      FileResultsCount(ks[..|ks| - 1], msg, ns, rel);
      DiagnosePerMatch(PreOrder(ns), OldTag(k), msg(k), WithLine(k));
    }
  }

  function MatchCount(ks: seq<FixerKind>, ns: seq<Node>): nat
    decreases |ks|
  {
    if ks == [] then 0 else MatchCount(ks[..|ks| - 1], ns) + |Matching(PreOrder(ns), OldTag(ks[|ks| - 1]))|
  }

  // -------------------------------------------------------------- fix

  /** What Fix does with one file: nothing, an error that stops the walk, or the text written back. */
  datatype FixOutcome = Skipped | Failed(error: string) | Written(text: string)

  function FixOutcomeOf(ks: seq<FixerKind>, path: string, file: Result<string, string>): FixOutcome {
    if Ext(path) != ".twig" then Skipped
    else match file
      case Err(e) => Failed(e)
      case Ok(text) =>
        match HtmlParserSpec.Parse(text)
        case Err(pe) => Failed(HtmlParserSpec.Message(pe))
        case Ok(ns) => Written(DumpAll(FixAll(ks, ns)))
  }

  /**
   * The body of the walk in AdminTwigLinter.Fix for one file: anything but
   * a `.twig` file is skipped; a read or parse failure is returned as it
   * is and nothing is written; otherwise every selected rule's Fix runs in
   * list order on the same tree, and the concatenated dumps of the
   * top-level nodes are written back, changed or not.
   */
  method FixFile(ks: seq<FixerKind>, path: string, file: Result<string, string>) returns (out: FixOutcome)
    ensures out == FixOutcomeOf(ks, path, file)
  {
    if Ext(path) != ".twig" {
      return Skipped;
    }
    if file.Err? {
      return Failed(file.error);
    }
    var parsed := HtmlParser.NewParser(file.value);
    if parsed.Err? {
      return Failed(HtmlParserSpec.Message(parsed.error));
    }
    var tree := parsed.value;
    for i := 0 to |ks|
      invariant tree == FixAll(ks[..i], parsed.value)
    {
      assert ks[..i + 1][..i] == ks[..i];
      tree := Fix(ks[i], tree);
    }
    assert ks[..|ks|] == ks;
    var buf := "";
    for i := 0 to |tree|
      invariant buf == DumpAll(tree[..i])
    {
      DumpAllAppend(tree[..i], [tree[i]]);
      assert tree[..i + 1] == tree[..i] + [tree[i]];
      assert DumpAll([tree[i]]) == DumpNode(tree[i]) + DumpAll([]);
      buf := buf + DumpNode(tree[i]);
    }
    assert tree[..|tree|] == tree;
    return Written(buf);
  }

  /** After Fix, a Check of the same tree by the same rules finds nothing. */
  lemma FixThenCheckClean(ks: seq<FixerKind>, msg: FixerKind -> string, ns: seq<Node>, rel: string)
    ensures FileResults(ks, msg, FixAll(ks, ns), rel) == []
  {
    FixAllClears(ks, ns);
    FileResultsEmpty(ks, msg, FixAll(ks, ns), rel);
  }

  /** The selected Fixes leave a tree without any of their old tags as it is. */
  lemma {:induction false} FixAllIdle(ks: seq<FixerKind>, ns: seq<Node>)
    requires forall i :: 0 <= i < |ks| ==> NoTag(PreOrder(ns), OldTag(ks[i]))
    ensures FixAll(ks, ns) == ns
    decreases |ks|
  {
    if ks != [] {
      var init := ks[..|ks| - 1];
      assert forall i :: 0 <= i < |init| ==> init[i] == ks[i];
      FixAllIdle(init, ns);
      FixWithoutTag(ks[|ks| - 1], ns);
    }
  }

  /** A file Check has nothing to report on is written back as the dump of its own tree. */
  lemma CleanFileUnchanged(ks: seq<FixerKind>, msg: FixerKind -> string, ns: seq<Node>, rel: string)
    requires FileResults(ks, msg, ns, rel) == []
    ensures FixAll(ks, ns) == ns
  {
    FileResultsEmpty(ks, msg, ns, rel);
    FixAllIdle(ks, ns);
  }

  /** Running the selected Fixes twice gives the tree of running them once. */
  lemma FixAllIdempotent(ks: seq<FixerKind>, ns: seq<Node>)
    ensures FixAll(ks, FixAll(ks, ns)) == FixAll(ks, ns)
  {
    FixAllClears(ks, ns);
    FixAllIdle(ks, FixAll(ks, ns));
  }
}
