/**
 * The CI report (reporter.go): the results as a Markdown table for the
 * step summary, and one workflow annotation line per result. Environment
 * variables, the summary file and standard output are parameters and
 * results of the methods here.
 */
module Reporter {
  import opened Wrappers
  import opened Text
  import opened ToolResult

  const HeaderLine := "| Severity | Identifier | File | Message | "
  const SeparatorLine := "| --- | --- | --- | --- |"

  /** The table row of one result, without its newline; the line number is not shown. */
  function RowLine(r: CheckResult): string {
    "| " + r.severity + " | " + r.identifier + " | " + r.path + " | " + r.message + " |"
  }

  function RowLines(rs: seq<CheckResult>): (ls: seq<string>)
    ensures |ls| == |rs|
    ensures forall i :: 0 <= i < |rs| ==> ls[i] == RowLine(rs[i])
    decreases |rs|
  {
    if rs == [] then [] else [RowLine(rs[0])] + RowLines(rs[1..])
  }

  /** Lines, each followed by a newline. */
  function Unlines(ls: seq<string>): string
    decreases |ls|
  {
    if ls == [] then "" else ls[0] + "\n" + Unlines(ls[1..])
  }

  /** The summary text: a title, an empty line, the table head, one row per result, and an empty line. */
  function Markdown(rs: seq<CheckResult>): string {
    Unlines(["# Results", "", HeaderLine, SeparatorLine] + RowLines(rs) + [""])
  }

  /** convertResultsToMarkdown, writing into a builder. */
  method ConvertResultsToMarkdown(check: seq<CheckResult>) returns (s: string)
    ensures s == Markdown(check)
  {
    var builder := "";
    builder := builder + "# Results\n\n";
    assert builder == Unlines(["# Results", ""]);
    builder := builder + "| Severity | Identifier | File | Message | \n";
    UnlinesSnoc(["# Results", ""], HeaderLine);
    assert ["# Results", ""] + [HeaderLine] == ["# Results", "", HeaderLine];
    builder := builder + "| --- | --- | --- | --- |\n";
    UnlinesSnoc(["# Results", "", HeaderLine], SeparatorLine);
    assert ["# Results", "", HeaderLine] + [SeparatorLine] == ["# Results", "", HeaderLine, SeparatorLine];
    ghost var head := ["# Results", "", HeaderLine, SeparatorLine];
    assert head + RowLines(check[..0]) == head;
    for i := 0 to |check|
      invariant builder == Unlines(head + RowLines(check[..i]))
    {
      var result := check[i];
      RowLinesSnoc(check, i);
      UnlinesSnoc(head + RowLines(check[..i]), RowLine(result));
      assert head + RowLines(check[..i + 1]) == head + RowLines(check[..i]) + [RowLine(result)];
      builder := builder + ("| " + result.severity + " | " + result.identifier + " | " + result.path + " | " + result.message + " |\n");
    }
    UnlinesSnoc(["# Results", "", HeaderLine, SeparatorLine] + RowLines(check), "");
    assert check[..|check|] == check;
    builder := builder + "\n";
    s := builder;
  }

  lemma RowLinesSnoc(rs: seq<CheckResult>, i: int)
    requires 0 <= i < |rs|
    ensures RowLines(rs[..i + 1]) == RowLines(rs[..i]) + [RowLine(rs[i])]
  {
  }

  lemma {:induction false} UnlinesAppend(a: seq<string>, b: seq<string>)
    ensures Unlines(a + b) == Unlines(a) + Unlines(b)
    decreases |a|
  {
    if a == [] {
      assert a + b == b;
    } else {
      assert (a + b)[1..] == a[1..] + b;
      UnlinesAppend(a[1..], b);
    }
  }

  lemma UnlinesSnoc(a: seq<string>, x: string)
    ensures Unlines(a + [x]) == Unlines(a) + x + "\n"
  {
    UnlinesAppend(a, [x]);
    assert Unlines([x]) == x + "\n" + Unlines([]);
  }

  predicate NoNewline(s: string) {
    forall k :: 0 <= k < |s| ==> s[k] != '\n'
  }

  /** A result none of whose shown fields holds a line break. */
  predicate OneLine(r: CheckResult) {
    NoNewline(r.severity) && NoNewline(r.identifier) && NoNewline(r.path) && NoNewline(r.message)
  }

  /** Splitting a line and its newline off the front. */
  lemma {:induction false} SplitLine(l: string, s: string)
    requires NoNewline(l)
    ensures Split(l + "\n" + s, '\n') == [l] + Split(s, '\n')
    decreases |l|
  {
    if l == [] {
      assert l + "\n" + s == "\n" + s;
      assert ("\n" + s)[1..] == s;
    } else {
      SplitLine(l[1..], s);
      assert (l + "\n" + s)[1..] == l[1..] + "\n" + s;
      assert [l[0]] + l[1..] == l;
    }
  }

  predicate AllNoNewline(ls: seq<string>) {
    forall i :: 0 <= i < |ls| ==> NoNewline(ls[i])
  }

  lemma AllNoNewlineAppend(a: seq<string>, b: seq<string>)
    requires AllNoNewline(a) && AllNoNewline(b)
    ensures AllNoNewline(a + b)
  {
    forall i | 0 <= i < |a + b| ensures NoNewline((a + b)[i]) {
      if i < |a| {
        assert (a + b)[i] == a[i];
      } else {
        assert (a + b)[i] == b[i - |a|];
      }
    }
  }

  lemma HeadOneLine()
    ensures AllNoNewline(["# Results", "", HeaderLine, SeparatorLine])
  {
    assert NoNewline(HeaderLine);
    assert NoNewline(SeparatorLine);
  }

  lemma {:induction false} SplitUnlines(ls: seq<string>)
    requires AllNoNewline(ls)
    ensures Split(Unlines(ls), '\n') == ls + [""]
    decreases |ls|
  {
    if ls != [] {
      SplitUnlines(ls[1..]);
      SplitLine(ls[0], Unlines(ls[1..]));
      assert ls == [ls[0]] + ls[1..];
    }
  }

  lemma RowLineOneLine(r: CheckResult)
    requires OneLine(r)
    ensures NoNewline(RowLine(r))
  {
    var a := "| " + r.severity + " | " + r.identifier + " | ";
    var b := r.path + " | " + r.message + " |";
    assert RowLine(r) == a + b;
    assert NoNewline(a);
    assert NoNewline(b);
  }

  lemma RowLinesOneLine(rs: seq<CheckResult>)
    requires forall i :: 0 <= i < |rs| ==> OneLine(rs[i])
    ensures AllNoNewline(RowLines(rs))
  {
    var rows := RowLines(rs);
    forall i | 0 <= i < |rows| ensures NoNewline(rows[i]) {
      RowLineOneLine(rs[i]);
    }
  }

  lemma SplitFramed(head: seq<string>, rows: seq<string>)
    requires AllNoNewline(head) && AllNoNewline(rows)
    ensures Split(Unlines(head + rows + [""]), '\n') == head + rows + ["", ""]
  {
    AllNoNewlineAppend(head, rows);
    AllNoNewlineAppend(head + rows, [""]);
    SplitUnlines(head + rows + [""]);
  }

  /**
   * The summary read back line by line: the title, an empty line, the
   * header (with its trailing space), the separator, exactly one row per
   * result in input order, then two empty pieces from the final blank line.
   */
  lemma MarkdownLines(rs: seq<CheckResult>)
    requires forall i :: 0 <= i < |rs| ==> OneLine(rs[i])
    ensures Split(Markdown(rs), '\n') == ["# Results", "", HeaderLine, SeparatorLine] + RowLines(rs) + ["", ""]
  {
    RowLinesOneLine(rs);
    HeadOneLine();
    SplitFramed(["# Results", "", HeaderLine, SeparatorLine], RowLines(rs));
  }

  /** The annotation line for one result: the line is shown only when it is not 0. */
  function Annotation(res: CheckResult): string {
    if res.line == 0 then "::" + res.severity + " file=" + res.path + "::" + res.message + "\n"
    else "::" + res.severity + " file=" + res.path + ",line=" + IntToString(res.line) + "::" + res.message + "\n"
  }

  function Annotations(rs: seq<CheckResult>): string
    decreases |rs|
  {
    if rs == [] then "" else Annotations(rs[..|rs| - 1]) + Annotation(rs[|rs| - 1])
  }

  /**
   * An annotation starts with the severity and the file, ends with the
   * message and a newline, and in between names the line exactly when it
   * is not 0, as a numeral that reads back as that line.
   */
  lemma AnnotationShape(res: CheckResult)
    ensures res.line == 0 ==> Annotation(res) == "::" + res.severity + " file=" + res.path + "::" + res.message + "\n"
    ensures res.line != 0 ==> exists d :: (NumeralValue(d) == res.line &&
      Annotation(res) == "::" + res.severity + " file=" + res.path + ",line=" + d + "::" + res.message + "\n")
  {
    if res.line != 0 {
      IntToStringValue(res.line);
    }
  }

  /**
   * The CI report: nothing outside a GitHub Actions run; otherwise the
   * summary goes to the step summary file when one is named, and a
   * failing write (given as `writeError`) ends the report with an error
   * before any annotation is printed.
   */
  method DoCIReport(results: seq<CheckResult>, isGitHubAction: bool, stepSummary: string, writeError: Option<string>)
    returns (summary: Option<string>, stdout: string, err: Option<string>)
    ensures !isGitHubAction ==> summary == None && stdout == "" && err == None
    ensures isGitHubAction ==> summary == (if stepSummary != "" then Some(Markdown(results)) else None)
    ensures isGitHubAction && stepSummary != "" && writeError.Some? ==>
      stdout == "" && err == Some("failed to write step summary: " + writeError.value)
    ensures isGitHubAction && (stepSummary == "" || writeError.None?) ==> stdout == Annotations(results) && err == None
  {
    summary, stdout, err := None, "", None;
    if isGitHubAction {
      if stepSummary != "" {
        var text := ConvertResultsToMarkdown(results);
        summary := Some(text);
        if writeError.Some? {
          err := Some("failed to write step summary: " + writeError.value);
          return;
        }
      }
      for i := 0 to |results|
        invariant stdout == Annotations(results[..i])
      {
        var res := results[i];
        assert results[..i + 1][..i] == results[..i];
        if res.line == 0 {
          stdout := stdout + ("::" + res.severity + " file=" + res.path + "::" + res.message + "\n");
        } else {
          stdout := stdout + ("::" + res.severity + " file=" + res.path + ",line=" + IntToString(res.line) + "::" + res.message + "\n");
        }
      }
      assert results[..|results|] == results;
    }
  }
}
