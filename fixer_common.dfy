/**
 * What the component rules of internal/admintwiglinter share: the
 * diagnostic record their Check methods return, the pre-order filter that
 * produces those diagnostics, the list combinators their attribute and
 * child loops amount to, the slot-text reads, the JSON text they build, and
 * the rank that makes the traversal of a rewriting rule terminate.
 */
module FixerCommon {
  import opened Wrappers
  import opened Html
  import opened Text

  // ------------------------------------------------------------ diagnostics

  /** CheckError: one diagnostic of a rule. */
  datatype CheckError = CheckError(message: string, severity: string, identifier: string, line: nat)

  /** The diagnostic a rule reports for an element it matches. */
  function Diagnostic(e: ElementNode, tag: string, message: string, withLine: bool): CheckError {
    CheckError(message, "error", tag, if withLine then e.line else 0)
  }

  /** The elements of `es` whose tag is `tag`, in order. */
  function Matching(es: seq<ElementNode>, tag: string): (r: seq<ElementNode>)
    ensures |r| <= |es|
    ensures forall i :: 0 <= i < |r| ==> r[i].tag == tag
    decreases |es|
  {
    if es == [] then []
    else Matching(es[..|es| - 1], tag) + (if es[|es| - 1].tag == tag then [es[|es| - 1]] else [])
  }

  /**
   * The diagnostics a rule's Check collects on the pre-order list `es`: one
   * per element carrying `tag`, in order.
   */
  function Diagnose(es: seq<ElementNode>, tag: string, message: string, withLine: bool): seq<CheckError>
    decreases |es|
  {
    if es == [] then []
    else
      Diagnose(es[..|es| - 1], tag, message, withLine)
      + (if es[|es| - 1].tag == tag then [Diagnostic(es[|es| - 1], tag, message, withLine)] else [])
  }

  lemma {:induction false} DiagnoseAppend(a: seq<ElementNode>, b: seq<ElementNode>, tag: string, message: string, withLine: bool)
    ensures Diagnose(a + b, tag, message, withLine) == Diagnose(a, tag, message, withLine) + Diagnose(b, tag, message, withLine)
    decreases |b|
  {
    if b == [] {
      assert a + b == a;
    } else {
      var b' := b[..|b| - 1];
      assert (a + b)[..|a + b| - 1] == a + b';
      DiagnoseAppend(a, b', tag, message, withLine);
    }
  }

  /**
   * Check reports exactly the matching elements: one diagnostic each, in
   * order, with the rule's message, severity "error", the old tag as
   * identifier, and the element's line when the rule copies it.
   */
  lemma {:induction false} DiagnosePerMatch(es: seq<ElementNode>, tag: string, message: string, withLine: bool)
    ensures |Diagnose(es, tag, message, withLine)| == |Matching(es, tag)|
    ensures forall i :: 0 <= i < |Matching(es, tag)| ==>
      Diagnose(es, tag, message, withLine)[i] == CheckError(message, "error", tag, if withLine then Matching(es, tag)[i].line else 0)
    decreases |es|
  {
    if es != [] {
      DiagnosePerMatch(es[..|es| - 1], tag, message, withLine);
    }
  }

  /** Check is empty exactly when no element carries the tag. */
  lemma {:induction false} DiagnoseEmpty(es: seq<ElementNode>, tag: string, message: string, withLine: bool)
    ensures Diagnose(es, tag, message, withLine) == [] <==> NoTag(es, tag)
    decreases |es|
  {
    if es != [] {
      DiagnoseEmpty(es[..|es| - 1], tag, message, withLine);
      var es' := es[..|es| - 1];
      if NoTag(es, tag) {
        assert NoTag(es', tag) by {
          forall i | 0 <= i < |es'| ensures es'[i].tag != tag {
            assert es'[i] == es[i];
          }
        }
      }
      if Diagnose(es, tag, message, withLine) == [] {
        assert |Diagnose(es', tag, message, withLine)| == 0;
        forall i | 0 <= i < |es| ensures es[i].tag != tag {
          if i < |es| - 1 {
            assert es[i] == es'[i];
          }
        }
      }
    }
  }

  /** What one more top-level node adds to the diagnostics of a node list. */
  lemma CheckStep(ns: seq<Node>, i: int, tag: string, message: string, withLine: bool)
    requires 0 <= i < |ns|
    ensures ns[i].Raw? ==> Diagnose(PreOrder(ns[..i + 1]), tag, message, withLine) == Diagnose(PreOrder(ns[..i]), tag, message, withLine)
    ensures ns[i].Element? ==>
      Diagnose(PreOrder(ns[..i + 1]), tag, message, withLine)
      == Diagnose(PreOrder(ns[..i]), tag, message, withLine)
      + Diagnose([ns[i].el], tag, message, withLine)
      + Diagnose(PreOrder(ns[i].el.children), tag, message, withLine)
  {
    assert ns[..i + 1] == ns[..i] + [ns[i]];
    PreOrderAppend(ns[..i], [ns[i]]);
    assert [ns[i]][1..] == [];
    assert PreOrder([ns[i]]) == PreOrderNode(ns[i]) + PreOrder([]);
    var pre := PreOrder(ns[..i]);
    assert PreOrder(ns[..i + 1]) == pre + PreOrderNode(ns[i]);
    match ns[i]
    case Raw(_) =>
      assert pre + [] == pre;
    case Element(e) =>
      assert PreOrder(ns[..i + 1]) == pre + ([e] + PreOrder(e.children));
      DiagnoseAppend(pre, [e] + PreOrder(e.children), tag, message, withLine);
      DiagnoseAppend([e], PreOrder(e.children), tag, message, withLine);
  }

  lemma DiagnoseOne(e: ElementNode, tag: string, message: string, withLine: bool)
    ensures Diagnose([e], tag, message, withLine) == if e.tag == tag then [Diagnostic(e, tag, message, withLine)] else []
  {
    assert [e][..0] == [];
  }

  /**
   * The Check of a rule: TraverseNode with a callback that only reads, so
   * the callback sees the elements in pre-order and appends one
   * diagnostic per match.
   */
  method CollectDiagnostics(ns: seq<Node>, tag: string, message: string, withLine: bool) returns (errs: seq<CheckError>)
    ensures errs == Diagnose(PreOrder(ns), tag, message, withLine)
    decreases NodesSize(ns)
  {
    errs := [];
    for i := 0 to |ns|
      invariant errs == Diagnose(PreOrder(ns[..i]), tag, message, withLine)
    {
      CheckStep(ns, i, tag, message, withLine);
      if ns[i].Element? {
        var e := ns[i].el;
        DiagnoseOne(e, tag, message, withLine);
        if e.tag == tag {
          errs := errs + [Diagnostic(e, tag, message, withLine)];
        }
        MemberSizeBelow(ns, ns[i]);
        var inner := CollectDiagnostics(e.children, tag, message, withLine);
        errs := errs + inner;
      }
    }
    assert ns[..|ns|] == ns;
  }

  // ----------------------------------------------------- list combinators

  /** The list a `for … { out = append(out, f(x)...) }` loop builds. */
  function ConcatMap<T, U>(f: T -> seq<U>, s: seq<T>): seq<U>
    decreases |s|
  {
    if s == [] then [] else ConcatMap(f, s[..|s| - 1]) + f(s[|s| - 1])
  }

  lemma {:induction false} ConcatMapAppend<T, U>(f: T -> seq<U>, a: seq<T>, b: seq<T>)
    ensures ConcatMap(f, a + b) == ConcatMap(f, a) + ConcatMap(f, b)
    decreases |b|
  {
    if b == [] {
      assert a + b == a;
    } else {
      assert (a + b)[..|a + b| - 1] == a + b[..|b| - 1];
      ConcatMapAppend(f, a, b[..|b| - 1]);
    }
  }

  lemma ConcatMapOne<T, U>(f: T -> seq<U>, x: T)
    ensures ConcatMap(f, [x]) == f(x)
  {
    assert [x][..0] == [];
  }

  /** The subsequence of `s` that satisfies `p`. */
  function Filter<T>(p: T -> bool, s: seq<T>): (r: seq<T>)
    ensures |r| <= |s|
    decreases |s|
  {
    if s == [] then [] else Filter(p, s[..|s| - 1]) + (if p(s[|s| - 1]) then [s[|s| - 1]] else [])
  }

  lemma {:induction false} FilterAppend<T>(p: T -> bool, a: seq<T>, b: seq<T>)
    ensures Filter(p, a + b) == Filter(p, a) + Filter(p, b)
    decreases |b|
  {
    if b == [] {
      assert a + b == a;
    } else {
      assert (a + b)[..|a + b| - 1] == a + b[..|b| - 1];
      FilterAppend(p, a, b[..|b| - 1]);
    }
  }

  lemma {:induction false} FilterNone<T>(p: T -> bool, s: seq<T>)
    requires forall i :: 0 <= i < |s| ==> !p(s[i])
    ensures Filter(p, s) == []
    decreases |s|
  {
    if s != [] {
      FilterNone(p, s[..|s| - 1]);
    }
  }

  /** The filtered list has one element per element satisfying `p`. */
  lemma {:induction false} FilterCount<T>(p: T -> bool, s: seq<T>)
    ensures |Filter(p, s)| == CountIf(p, s)
    decreases |s|
  {
    if s != [] {
      FilterCount(p, s[..|s| - 1]);
    }
  }

  /** A list all of whose elements satisfy `p` passes the filter whole. */
  lemma {:induction false} FilterAll<T>(p: T -> bool, s: seq<T>)
    requires forall i :: 0 <= i < |s| ==> p(s[i])
    ensures Filter(p, s) == s
    decreases |s|
  {
    if s != [] {
      FilterAll(p, s[..|s| - 1]);
    }
  }

  /**
   * When `f` keeps every element satisfying `p` as it is and turns every
   * other element into elements that do not satisfy `p`, the elements
   * satisfying `p` come out of ConcatMap as they went in: same values,
   * same order.
   */
  lemma {:induction false} ConcatMapKeeps<T>(f: T -> seq<T>, p: T -> bool, s: seq<T>)
    requires forall x :: p(x) ==> f(x) == [x]
    requires forall x, i :: !p(x) && 0 <= i < |f(x)| ==> !p(f(x)[i])
    ensures Filter(p, ConcatMap(f, s)) == Filter(p, s)
    decreases |s|
  {
    if s != [] {
      var s' := s[..|s| - 1];
      var x := s[|s| - 1];
      ConcatMapKeeps(f, p, s');
      FilterAppend(p, ConcatMap(f, s'), f(x));
      if !p(x) {
        FilterNone(p, f(x));
      } else {
        assert Filter(p, [x]) == Filter(p, []) + [x];
      }
    }
  }

  /** When no image of `f` contains an element satisfying `q`, neither does ConcatMap. */
  lemma {:induction false} ConcatMapAvoids<T, U>(f: T -> seq<U>, q: U -> bool, s: seq<T>)
    requires forall x, i :: 0 <= i < |f(x)| ==> !q(f(x)[i])
    ensures forall i :: 0 <= i < |ConcatMap(f, s)| ==> !q(ConcatMap(f, s)[i])
    decreases |s|
  {
    if s != [] {
      var s' := s[..|s| - 1];
      ConcatMapAvoids(f, q, s');
      var a := ConcatMap(f, s');
      var b := f(s[|s| - 1]);
      forall i | 0 <= i < |a + b| ensures !q((a + b)[i]) {
        if i >= |a| {
          assert (a + b)[i] == b[i - |a|];
        } else {
          assert (a + b)[i] == a[i];
        }
      }
    }
  }

  /** The number of elements satisfying `p`. */
  function CountIf<T>(p: T -> bool, s: seq<T>): nat
    decreases |s|
  {
    if s == [] then 0 else CountIf(p, s[..|s| - 1]) + (if p(s[|s| - 1]) then 1 else 0)
  }

  lemma {:induction false} CountIfNone<T>(p: T -> bool, s: seq<T>)
    requires forall k :: 0 <= k < |s| ==> !p(s[k])
    ensures CountIf(p, s) == 0
    decreases |s|
  {
    if s != [] {
      CountIfNone(p, s[..|s| - 1]);
    }
  }

  /** When `f` drops exactly the elements satisfying `d` and maps every other one to one element, ConcatMap loses exactly those. */
  lemma {:induction false} ConcatMapLength<T, U>(f: T -> seq<U>, d: T -> bool, s: seq<T>)
    requires forall x :: |f(x)| == if d(x) then 0 else 1
    ensures |ConcatMap(f, s)| == |s| - CountIf(d, s)
    decreases |s|
  {
    if s != [] {
      ConcatMapLength(f, d, s[..|s| - 1]);
    }
  }

  /** When `f` maps every element to one element, ConcatMap keeps the length. */
  lemma {:induction false} ConcatMapOneEach<T, U>(f: T -> seq<U>, s: seq<T>)
    requires forall x :: |f(x)| == 1
    ensures |ConcatMap(f, s)| == |s|
    decreases |s|
  {
    if s != [] {
      ConcatMapOneEach(f, s[..|s| - 1]);
    }
  }

  /** When `f` maps the elements satisfying `g` to two elements and every other one to one, ConcatMap gains one per such element. */
  lemma {:induction false} ConcatMapGrowth<T, U>(f: T -> seq<U>, g: T -> bool, s: seq<T>)
    requires forall x :: |f(x)| == if g(x) then 2 else 1
    ensures |ConcatMap(f, s)| == |s| + CountIf(g, s)
    decreases |s|
  {
    if s != [] {
      ConcatMapGrowth(f, g, s[..|s| - 1]);
    }
  }

  // --------------------------------------------------------- key tables

  /**
   * The plain cases of a rule's attribute switch, as a table: `Some(k)`
   * renames the key to `k` and keeps the value, `None` drops the
   * attribute. A key missing from the table is the `default:` branch.
   */
  type KeyTable = map<string, Option<string>>

  function Rename(table: KeyTable, a: Attribute): (r: seq<Attribute>)
    ensures |r| <= 1
    ensures forall i :: 0 <= i < |r| ==> r[i].value == a.value
  {
    if a.key !in table then [a]
    else match table[a.key]
      case None => []
      case Some(k) => [Attribute(k, a.value)]
  }

  /** The keys a table renames to. */
  function Targets(table: KeyTable): set<string> {
    set k | k in table && table[k].Some? :: table[k].value
  }

  /** One entry of an in-place key rename (`node.Attributes[i].Key = k`): the value stays. */
  function RenameKey(table: map<string, string>, a: Attribute): Attribute {
    if a.key in table then Attribute(table[a.key], a.value) else a
  }

  /** The attribute list after a rename loop that writes the new keys into it position by position. */
  function RenameKeys(table: map<string, string>, attrs: seq<Attribute>): seq<Attribute> {
    seq(|attrs|, i requires 0 <= i < |attrs| => RenameKey(table, attrs[i]))
  }

  /** The loop `for i, attr := range node.Attributes { switch attr.Key { case k: node.Attributes[i].Key = table[k] } }`. */
  method RenameKeysInPlace(a: array<Attribute>, table: map<string, string>)
    modifies a
    ensures a[..] == RenameKeys(table, old(a[..]))
  {
    ghost var before := a[..];
    for i := 0 to a.Length
      invariant forall k :: 0 <= k < i ==> a[k] == RenameKey(table, before[k])
      invariant forall k :: i <= k < a.Length ==> a[k] == before[k]
    {
      var attr := a[i];
      if attr.key in table {
        a[i] := Attribute(table[attr.key], a[i].value);
      }
    }
  }

  /**
   * What a key rename keeps: the length, every value, and every attribute
   * whose key is not renamed, in its place; and when no new key is itself
   * renamed, no renamed key is left.
   */
  lemma RenameKeysTable(table: map<string, string>, attrs: seq<Attribute>)
    ensures |RenameKeys(table, attrs)| == |attrs|
    ensures forall i :: 0 <= i < |attrs| ==> RenameKeys(table, attrs)[i].value == attrs[i].value
    ensures forall i :: 0 <= i < |attrs| && attrs[i].key !in table ==> RenameKeys(table, attrs)[i] == attrs[i]
    ensures (forall k :: k in table ==> table[k] !in table) ==>
      forall i :: 0 <= i < |attrs| ==> RenameKeys(table, attrs)[i].key !in table
  {
  }

  /** Some attribute of the list has one of the `keys`. */
  predicate HasKey(attrs: seq<Attribute>, keys: set<string>) {
    exists j :: 0 <= j < |attrs| && attrs[j].key in keys
  }

  lemma HasKeySnoc(attrs: seq<Attribute>, a: Attribute, keys: set<string>)
    ensures HasKey(attrs + [a], keys) <==> HasKey(attrs, keys) || a.key in keys
  {
    var s := attrs + [a];
    if a.key in keys {
      assert s[|attrs|] == a;
    }
    if HasKey(attrs, keys) {
      var j :| 0 <= j < |attrs| && attrs[j].key in keys;
      assert s[j] == attrs[j];
    }
    if HasKey(s, keys) {
      var j :| 0 <= j < |s| && s[j].key in keys;
      if j < |attrs| {
        assert s[j] == attrs[j];
      }
    }
  }

  lemma HasKeyCons(a: Attribute, attrs: seq<Attribute>, keys: set<string>)
    ensures HasKey([a] + attrs, keys) <==> a.key in keys || HasKey(attrs, keys)
  {
    var s := [a] + attrs;
    if a.key in keys {
      assert s[0] == a;
    }
    if HasKey(attrs, keys) {
      var j :| 0 <= j < |attrs| && attrs[j].key in keys;
      assert s[j + 1] == attrs[j];
    }
    if HasKey(s, keys) {
      var j :| 0 <= j < |s| && s[j].key in keys;
      if j > 0 {
        assert s[j] == attrs[j - 1];
      }
    }
  }

  /** The value of the last attribute named `key`, if any (a loop that assigns on every match). */
  function LastValue(attrs: seq<Attribute>, key: string): (r: Option<string>)
    ensures r.None? <==> !HasKey(attrs, {key})
    decreases |attrs|
  {
    if attrs == [] then None
    else if attrs[|attrs| - 1].key == key then Some(attrs[|attrs| - 1].value)
    else
      var r := LastValue(attrs[..|attrs| - 1], key);
      HasKeySnoc(attrs[..|attrs| - 1], attrs[|attrs| - 1], {key});
      assert attrs[..|attrs| - 1] + [attrs[|attrs| - 1]] == attrs;
      r
  }

  /** LastValue is the value of an attribute with that key, and no later attribute has the key. */
  lemma {:induction false} LastValueIsLast(attrs: seq<Attribute>, key: string)
    requires LastValue(attrs, key).Some?
    ensures exists j :: (0 <= j < |attrs| && attrs[j] == Attribute(key, LastValue(attrs, key).value)
      && forall k :: j < k < |attrs| ==> attrs[k].key != key)
    decreases |attrs|
  {
    var n := |attrs| - 1;
    if attrs[n].key == key {
      assert attrs[n] == Attribute(key, LastValue(attrs, key).value);
    } else {
      var a' := attrs[..n];
      LastValueIsLast(a', key);
      var j :| 0 <= j < |a'| && a'[j] == Attribute(key, LastValue(a', key).value)
        && forall k :: j < k < |a'| ==> a'[k].key != key;
      assert attrs[j] == a'[j];
      forall k | j < k < |attrs| ensures attrs[k].key != key {
        if k < n {
          assert attrs[k] == a'[k];
        }
      }
    }
  }

  /** The loop that reassigns a value on every attribute named `key`. */
  method FindLastValue(attrs: seq<Attribute>, key: string) returns (r: Option<string>)
    ensures r == LastValue(attrs, key)
  {
    r := None;
    for j := 0 to |attrs|
      invariant r == LastValue(attrs[..j], key)
    {
      assert attrs[..j + 1][..j] == attrs[..j];
      if attrs[j].key == key {
        r := Some(attrs[j].value);
      }
    }
    assert attrs[..|attrs|] == attrs;
  }

  /** A loop that reads `attrs` up to the first attribute whose key is in `keys` and stops there. */
  function FirstKeyIn(attrs: seq<Attribute>, keys: set<string>): (r: Option<string>)
    ensures r.None? <==> !HasKey(attrs, keys)
    ensures r.Some? ==> r.value in keys
    decreases |attrs|
  {
    if attrs == [] then None
    else if attrs[0].key in keys then Some(attrs[0].key)
    else
      var r := FirstKeyIn(attrs[1..], keys);
      assert HasKey(attrs, keys) <==> HasKey(attrs[1..], keys) by {
        if HasKey(attrs, keys) {
          var j :| 0 <= j < |attrs| && attrs[j].key in keys;
          assert attrs[1..][j - 1] == attrs[j];
        }
        if HasKey(attrs[1..], keys) {
          var j :| 0 <= j < |attrs[1..]| && attrs[1..][j].key in keys;
          assert attrs[j + 1] == attrs[1..][j];
        }
      }
      r
  }

  /** FirstKeyIn names the key of the first attribute that has one of the keys. */
  lemma {:induction false} FirstKeyInIsFirst(attrs: seq<Attribute>, keys: set<string>)
    requires FirstKeyIn(attrs, keys).Some?
    ensures exists j :: (0 <= j < |attrs| && attrs[j].key == FirstKeyIn(attrs, keys).value
      && forall k :: 0 <= k < j ==> attrs[k].key !in keys)
    decreases |attrs|
  {
    if attrs[0].key !in keys {
      FirstKeyInIsFirst(attrs[1..], keys);
      var j :| 0 <= j < |attrs[1..]| && attrs[1..][j].key == FirstKeyIn(attrs[1..], keys).value
        && forall k :: 0 <= k < j ==> attrs[1..][k].key !in keys;
      assert attrs[j + 1] == attrs[1..][j];
      forall k | 0 <= k < j + 1 ensures attrs[k].key !in keys {
        if k > 0 {
          assert attrs[k] == attrs[1..][k - 1];
        }
      }
    } else {
      assert attrs[0].key == FirstKeyIn(attrs, keys).value;
    }
  }

  /** The scan of a template's attributes that stops at the first slot key. */
  method FindFirstKey(attrs: seq<Attribute>, keys: set<string>) returns (r: Option<string>)
    ensures r == FirstKeyIn(attrs, keys)
  {
    var j := 0;
    while j < |attrs|
      invariant 0 <= j <= |attrs|
      invariant FirstKeyIn(attrs[j..], keys) == FirstKeyIn(attrs, keys)
      decreases |attrs| - j
    {
      if attrs[j].key in keys {
        return Some(attrs[j].key);
      }
      assert attrs[j..][1..] == attrs[j + 1..];
      j := j + 1;
    }
    return None;
  }

  // ------------------------------------------------------------ slot text

  /**
   * The text a slot contributes in most rules: the Dump of every child with
   * the surrounding white space trimmed, concatenated (a strings.Builder
   * loop).
   */
  function TrimmedDumps(cs: seq<Node>): string {
    ConcatMap(TrimmedDump, cs)
  }

  function TrimmedDump(n: Node): string {
    TrimSpace(DumpNode(n))
  }

  /** A single text child contributes its text without the surrounding white space. */
  lemma TrimmedDumpsOfText(t: string)
    ensures TrimmedDumps([Raw(t)]) == TrimSpace(t)
  {
    ConcatMapOne(TrimmedDump, Raw(t));
  }

  /** Trimming never lengthens the text: the slot text is at most as long as the children's dump. */
  lemma {:induction false} TrimmedDumpsBound(cs: seq<Node>)
    ensures |TrimmedDumps(cs)| <= |DumpAll(cs)|
    decreases |cs|
  {
    if cs != [] {
      var cs' := cs[..|cs| - 1];
      TrimmedDumpsBound(cs');
      assert cs == cs' + [cs[|cs| - 1]];
      DumpAllAppend(cs', [cs[|cs| - 1]]);
      assert DumpAll([cs[|cs| - 1]]) == DumpNode(cs[|cs| - 1]);
    }
  }

  method TrimmedContent(cs: seq<Node>) returns (s: string)
    ensures s == TrimmedDumps(cs)
  {
    s := "";
    for i := 0 to |cs|
      invariant s == TrimmedDumps(cs[..i])
    {
      assert cs[..i + 1][..i] == cs[..i];
      s := s + TrimmedDump(cs[i]);
    }
    assert cs[..|cs|] == cs;
  }

  /** A child is a slot for `keys`: an element (a `template`, when `templatesOnly`) with one of the keys among its attributes. */
  predicate IsSlot(c: Node, keys: set<string>, templatesOnly: bool) {
    c.Element? && (!templatesOnly || c.el.tag == "template") && HasKey(c.el.attributes, keys)
  }

  /**
   * The label loop of most rules: on every slot child it reassigns the
   * label to that child's trimmed dumps, so the last slot wins, and ""
   * stays when there is none.
   */
  function LastSlotText(cs: seq<Node>, keys: set<string>, templatesOnly: bool): string
    decreases |cs|
  {
    if cs == [] then ""
    else if IsSlot(cs[|cs| - 1], keys, templatesOnly) then TrimmedDumps(cs[|cs| - 1].el.children)
    else LastSlotText(cs[..|cs| - 1], keys, templatesOnly)
  }

  /** No child is a slot from index `from` on. */
  predicate NoSlotFrom(cs: seq<Node>, from: int, keys: set<string>, templatesOnly: bool) {
    forall k :: 0 <= k < |cs| && from <= k ==> !IsSlot(cs[k], keys, templatesOnly)
  }

  /** Without a slot child the label stays empty. */
  lemma {:induction false} LastSlotTextNone(cs: seq<Node>, keys: set<string>, templatesOnly: bool)
    requires NoSlotFrom(cs, 0, keys, templatesOnly)
    ensures LastSlotText(cs, keys, templatesOnly) == ""
    decreases |cs|
  {
    if cs != [] {
      var cs' := cs[..|cs| - 1];
      assert NoSlotFrom(cs', 0, keys, templatesOnly) by {
        forall k | 0 <= k < |cs'| ensures !IsSlot(cs'[k], keys, templatesOnly) {
          assert cs'[k] == cs[k];
        }
      }
      LastSlotTextNone(cs', keys, templatesOnly);
    }
  }

  /** With slot children, the label is the text of the last one. */
  lemma {:induction false} LastSlotTextWins(cs: seq<Node>, i: int, keys: set<string>, templatesOnly: bool)
    requires 0 <= i < |cs| && IsSlot(cs[i], keys, templatesOnly) && NoSlotFrom(cs, i + 1, keys, templatesOnly)
    ensures LastSlotText(cs, keys, templatesOnly) == TrimmedDumps(cs[i].el.children)
    decreases |cs|
  {
    if i < |cs| - 1 {
      var cs' := cs[..|cs| - 1];
      assert cs'[i] == cs[i];
      assert NoSlotFrom(cs', i + 1, keys, templatesOnly) by {
        forall k | i + 1 <= k < |cs'| ensures !IsSlot(cs'[k], keys, templatesOnly) {
          assert cs'[k] == cs[k];
        }
      }
      LastSlotTextWins(cs', i, keys, templatesOnly);
    }
  }

  /** The label loop: for each (template) child, every slot key among its attributes sets the label. */
  method ReadLastSlot(cs: seq<Node>, keys: set<string>, templatesOnly: bool) returns (text: string)
    ensures text == LastSlotText(cs, keys, templatesOnly)
  {
    text := "";
    for i := 0 to |cs|
      invariant text == LastSlotText(cs[..i], keys, templatesOnly)
    {
      assert cs[..i + 1][..i] == cs[..i];
      if cs[i].Element? && (!templatesOnly || cs[i].el.tag == "template") {
        var elem := cs[i].el;
        ghost var before := text;
        for j := 0 to |elem.attributes|
          invariant text == if HasKey(elem.attributes[..j], keys) then TrimmedDumps(elem.children) else before
        {
          HasKeySnoc(elem.attributes[..j], elem.attributes[j], keys);
          assert elem.attributes[..j + 1] == elem.attributes[..j] + [elem.attributes[j]];
          if elem.attributes[j].key in keys {
            text := TrimmedContent(elem.children);
          }
        }
        assert elem.attributes[..|elem.attributes|] == elem.attributes;
      }
    }
    assert cs[..|cs|] == cs;
  }

  /**
   * The key a child answers to in the rules that stop at the first slot
   * key of a `template` (a goto out of the attribute loop): that key, or
   * None for a child that is not a template or has none of the keys.
   */
  function SlotKey(c: Node, keys: set<string>): (r: Option<string>)
    ensures r.Some? ==> c.Element? && c.el.tag == "template" && r.value in keys
  {
    if c.Element? && c.el.tag == "template" then FirstKeyIn(c.el.attributes, keys) else None
  }

  /** A child whose first slot key is one of `labelKeys`. */
  predicate IsLabelSlot(c: Node, keys: set<string>, labelKeys: set<string>) {
    SlotKey(c, keys).Some? && SlotKey(c, keys).value in labelKeys
  }

  /** The label of those rules: the trimmed text of the last label slot, "" without one. */
  function LastLabelText(cs: seq<Node>, keys: set<string>, labelKeys: set<string>): string
    decreases |cs|
  {
    if cs == [] then ""
    else if IsLabelSlot(cs[|cs| - 1], keys, labelKeys) then TrimmedDumps(cs[|cs| - 1].el.children)
    else LastLabelText(cs[..|cs| - 1], keys, labelKeys)
  }

  /** The label is the text of the last label slot. */
  lemma {:induction false} LastLabelTextWins(cs: seq<Node>, i: int, keys: set<string>, labelKeys: set<string>)
    requires 0 <= i < |cs| && IsLabelSlot(cs[i], keys, labelKeys)
    requires forall k :: i < k < |cs| ==> !IsLabelSlot(cs[k], keys, labelKeys)
    ensures LastLabelText(cs, keys, labelKeys) == TrimmedDumps(cs[i].el.children)
    decreases |cs|
  {
    if i < |cs| - 1 {
      var cs' := cs[..|cs| - 1];
      assert cs'[i] == cs[i];
      forall k | i < k < |cs'| ensures !IsLabelSlot(cs'[k], keys, labelKeys) {
        assert cs'[k] == cs[k];
      }
      LastLabelTextWins(cs', i, keys, labelKeys);
    }
  }

  /** Without a label slot the label stays empty. */
  lemma {:induction false} LastLabelTextNone(cs: seq<Node>, keys: set<string>, labelKeys: set<string>)
    requires forall k :: 0 <= k < |cs| ==> !IsLabelSlot(cs[k], keys, labelKeys)
    ensures LastLabelText(cs, keys, labelKeys) == ""
    decreases |cs|
  {
    if cs != [] {
      var cs' := cs[..|cs| - 1];
      forall k | 0 <= k < |cs'| ensures !IsLabelSlot(cs'[k], keys, labelKeys) {
        assert cs'[k] == cs[k];
      }
      LastLabelTextNone(cs', keys, labelKeys);
    }
  }

  /** The number of attributes named `key`. */
  function KeyCount(attrs: seq<Attribute>, key: string): nat
    decreases |attrs|
  {
    if attrs == [] then 0 else KeyCount(attrs[..|attrs| - 1], key) + (if attrs[|attrs| - 1].key == key then 1 else 0)
  }

  function Repeat(n: nat, s: string): string {
    if n == 0 then "" else Repeat(n - 1, s) + s
  }

  /**
   * The accumulating label loop of the datepicker and textarea rules:
   * every `#label` attribute of every `template` child appends the
   * untrimmed dumps of that child's children.
   */
  function SlotDumps(cs: seq<Node>): string {
    ConcatMap(TemplateDumps, cs)
  }

  /** What one child adds to the accumulating label. */
  function TemplateDumps(c: Node): string {
    if c.Element? && c.el.tag == "template" then Repeat(KeyCount(c.el.attributes, "#label"), DumpAll(c.el.children)) else ""
  }

  /** The label accumulates across templates: the text of a split list is the two texts joined. */
  lemma SlotDumpsAppend(a: seq<Node>, b: seq<Node>)
    ensures SlotDumps(a + b) == SlotDumps(a) + SlotDumps(b)
  {
    ConcatMapAppend(TemplateDumps, a, b);
  }

  /** A template with one `#label` contributes its children's dumps verbatim, white space included. */
  lemma SlotDumpsOneTemplate(t: ElementNode)
    requires t.tag == "template" && t.attributes == [Attribute("#label", "")]
    ensures SlotDumps([Element(t)]) == DumpAll(t.children)
  {
    ConcatMapOne(TemplateDumps, Element(t));
    assert t.attributes[..0] == [];
    assert KeyCount(t.attributes, "#label") == 1;
    assert Repeat(1, DumpAll(t.children)) == "" + DumpAll(t.children);
  }

  /** The two inner loops for one `template` child: each `#label` attribute appends every child's Dump. */
  method TemplateContribution(elem: ElementNode) returns (text: string)
    ensures text == Repeat(KeyCount(elem.attributes, "#label"), DumpAll(elem.children))
  {
    text := "";
    for j := 0 to |elem.attributes|
      invariant text == Repeat(KeyCount(elem.attributes[..j], "#label"), DumpAll(elem.children))
    {
      assert elem.attributes[..j + 1][..j] == elem.attributes[..j];
      if elem.attributes[j].key == "#label" {
        ghost var mid := text;
        for k := 0 to |elem.children|
          invariant text == mid + DumpAll(elem.children[..k])
        {
          assert elem.children[..k + 1] == elem.children[..k] + [elem.children[k]];
          DumpAllAppend(elem.children[..k], [elem.children[k]]);
          assert DumpAll([elem.children[k]]) == DumpNode(elem.children[k]);
          text := text + DumpNode(elem.children[k]);
        }
        assert elem.children[..|elem.children|] == elem.children;
      }
    }
    assert elem.attributes[..|elem.attributes|] == elem.attributes;
  }

  method AccumulateSlotDumps(cs: seq<Node>) returns (text: string)
    ensures text == SlotDumps(cs)
  {
    text := "";
    for i := 0 to |cs|
      invariant text == SlotDumps(cs[..i])
    {
      assert cs[..i + 1][..i] == cs[..i];
      if cs[i].Element? && cs[i].el.tag == "template" {
        var more := TemplateContribution(cs[i].el);
        text := text + more;
      }
    }
    assert cs[..|cs|] == cs;
  }

  /** `label="text"` when the text is not empty, nothing otherwise (the closing `if label != ""`). */
  function LabelIfAny(key: string, text: string): (r: seq<Attribute>)
    ensures |r| <= 1
    ensures text != "" <==> r == [Attribute(key, text)]
  {
    if text != "" then [Attribute(key, text)] else []
  }

  // ------------------------------------------------------------ JSON text

  /** `"key":value` of an object member, as encoding/json writes it. */
  function JsonMember(key: string, value: string): string {
    JsonString(key) + ":" + JsonString(value)
  }

  /**
   * A JSON object or array: its members or items, separated by commas,
   * between `open` and `close`.
   */
  function JsonList(open: char, parts: seq<string>, close: char): (r: string)
    ensures |r| >= 2 && r[0] == open && r[|r| - 1] == close
  {
    [open] + Join(parts, ',') + [close]
  }

  /** The commas of a list are exactly its separators when no part holds one: splitting there gives the parts back. */
  lemma JsonListSplits(open: char, parts: seq<string>, close: char)
    requires parts != []
    requires forall i :: 0 <= i < |parts| ==> Free(parts[i], ',')
    ensures var r := JsonList(open, parts, close); Split(r[1..|r| - 1], ',') == parts
  {
    var r := JsonList(open, parts, close);
    assert r[1..|r| - 1] == Join(parts, ',');
    JoinSplit(parts, ',');
  }

  /** An object, its members already in sorted key order (encoding/json sorts map keys). */
  function JsonObject(members: seq<string>): string {
    JsonList('{', members, '}')
  }

  /** An array of encoded items. */
  function JsonArray(items: seq<string>): string {
    JsonList('[', items, ']')
  }

  // ----------------------------------------------------------------- rank

  /**
   * The rank under which every rule's rewrite is Decreasing: the card rule
   * prepends a `slot` holding a `sw-ai-copilot-badge` (two elements), so a
   * `sw-card` weighs 3 and every other element 1.
   */
  function Weight(tag: string): nat {
    if tag == "sw-card" then 3 else 1
  }

  function Rank(e: ElementNode): (r: nat)
    ensures r >= 1
    decreases e
  {
    Weight(e.tag) + ChildrenRank(e.children)
  }

  function NodeRank(n: Node): nat
    decreases n
  {
    match n
    case Raw(_) => 0
    case Element(e) => Rank(e)
  }

  function ChildrenRank(cs: seq<Node>): nat
    decreases cs
  {
    if cs == [] then 0 else NodeRank(cs[0]) + ChildrenRank(cs[1..])
  }

  lemma {:induction false} MemberRankBelow(cs: seq<Node>, x: Node)
    requires x in cs && x.Element?
    ensures Rank(x.el) <= ChildrenRank(cs)
    decreases |cs|
  {
    if cs[0] != x {
      MemberRankBelow(cs[1..], x);
    }
  }

  /** Whatever keeps, filters or clears its children ranks each remaining child below the element. */
  lemma KeptChildrenRankBelow(e: ElementNode, r: ElementNode)
    requires forall i :: 0 <= i < |r.children| && r.children[i].Element? ==> r.children[i] in e.children
    ensures forall i :: 0 <= i < |r.children| && r.children[i].Element? ==> Rank(r.children[i].el) < Rank(e)
  {
    forall i | 0 <= i < |r.children| && r.children[i].Element?
      ensures Rank(r.children[i].el) < Rank(e)
    {
      MemberRankBelow(e.children, r.children[i]);
    }
  }

  /** Children of `r` that are all children of `e`, in any number. */
  predicate ChildrenFrom(r: ElementNode, e: ElementNode) {
    forall i :: 0 <= i < |r.children| ==> r.children[i] in e.children
  }

  /** A rewrite that keeps some of the children and gives the element a tag other than `t` keeps a subtree free of `t` free of it. */
  lemma RewriteKeepsAbsent(x: ElementNode, r: ElementNode, t: string)
    requires NoTag(PreOrderNode(Element(x)), t)
    requires r.tag != t && ChildrenFrom(r, x)
    ensures NoTag(PreOrderNode(Element(r)), t)
  {
    assert PreOrderNode(Element(x)) == [x] + PreOrder(x.children);
    NoTagSplit([x], PreOrder(x.children), t);
    NoTagMembers(x.children, r.children, t);
    assert PreOrderNode(Element(r)) == [r] + PreOrder(r.children);
    assert NoTag([r], t);
    NoTagSplit([r], PreOrder(r.children), t);
  }

  /** The subsequence of a list that satisfies `p` keeps only members of the list. */
  lemma {:induction false} FilterMembers<T>(p: T -> bool, s: seq<T>)
    ensures forall i :: 0 <= i < |Filter(p, s)| ==> Filter(p, s)[i] in s && p(Filter(p, s)[i])
    decreases |s|
  {
    if s != [] {
      var s' := s[..|s| - 1];
      FilterMembers(p, s');
      forall x | x in s' ensures x in s {
        var k :| 0 <= k < |s'| && s'[k] == x;
        assert s[k] == x;
      }
    }
  }
}
