/**
 * The sw-popover rule (internal/admintwiglinter/fixer_popover.go):
 * `sw-popover` becomes `mt-floating-ui`, `v-if` becomes `:isOpened`,
 * `:zIndex` and `:resizeWidth` are removed, and without a `v-if`
 * `:isOpened="true"` is appended.
 *
 * The source removes attributes from the slice it is ranging over. A Go
 * range evaluates the slice once, so the loop runs over the original
 * length and reads the shared backing array, whose elements the removal
 * shifts left. Each removal therefore makes the loop skip the attribute
 * that follows it, and makes it read the stale copy of the last attribute
 * at an index past the new length, where both writes of the loop body
 * panic. AsWritten models that loop; Fixed is the rule as its tests and
 * its message describe it, and the one the rest of the model uses.
 */
module FixPopover {
  import opened Wrappers
  import opened Html
  import opened FixerCommon

  const OldTag := "sw-popover"
  const NewTag := "mt-floating-ui"
  const Message := "sw-popover is deprecated, use mt-floating-ui instead"
  /** Check leaves the line of its diagnostics at 0. */
  const WithLine := false

  /** The attribute table of the rule: rename `v-if`, drop the two layout keys. */
  const Renames: KeyTable := map["v-if" := Some(":isOpened"), ":zIndex" := None, ":resizeWidth" := None]

  const OpenedTrue := Attribute(":isOpened", "true")

  predicate IsRemoved(a: Attribute) {
    a.key == ":zIndex" || a.key == ":resizeWidth"
  }

  // ---------------------------------------------------- the rule as meant

  function NewAttrs(attrs: seq<Attribute>): seq<Attribute> {
    ConcatMap((a: Attribute) => Rename(Renames, a), attrs)
  }

  /** The rewritten attribute list: every `v-if` renamed, the two keys dropped, `:isOpened="true"` when there was no `v-if`. */
  function FixedAttributes(attrs: seq<Attribute>): seq<Attribute> {
    NewAttrs(attrs) + (if HasKey(attrs, {"v-if"}) then [] else [OpenedTrue])
  }

  /** The effect of the Fix callback on one element. */
  function Fixed(e: ElementNode): (r: ElementNode)
    ensures e.tag != OldTag ==> r == e
    ensures e.tag == OldTag ==> r.tag == NewTag && r.line == e.line && r.selfClosing == e.selfClosing && r.children == e.children
  {
    if e.tag != OldTag then e else e.(tag := NewTag, attributes := FixedAttributes(e.attributes))
  }

  /** The Fix callback, building the new list instead of deleting from the one it reads. */
  method Fix(e: ElementNode) returns (r: ElementNode)
    ensures r == Fixed(e)
  {
    if e.tag != OldTag {
      return e;
    }
    var attrs := e.attributes;
    var newAttrs := [];
    var hasVIf := false;
    for n := 0 to |attrs|
      invariant newAttrs == NewAttrs(attrs[..n])
      invariant hasVIf == HasKey(attrs[..n], {"v-if"})
    {
      var attr := attrs[n];
      assert attrs[..n + 1] == attrs[..n] + [attr];
      assert attrs[..n + 1][..n] == attrs[..n];
      HasKeySnoc(attrs[..n], attr, {"v-if"});
      if attr.key == "v-if" {
        newAttrs := newAttrs + [Attribute(":isOpened", attr.value)];
        hasVIf := true;
      } else if !IsRemoved(attr) {
        newAttrs := newAttrs + [attr];
      }
    }
    assert attrs[..|attrs|] == attrs;
    if !hasVIf {
      newAttrs := newAttrs + [OpenedTrue];
    }
    r := e.(tag := NewTag, attributes := newAttrs);
  }

  predicate Untouched(a: Attribute) {
    a.key !in {"v-if", ":zIndex", ":resizeWidth", ":isOpened"}
  }

  /**
   * The attribute table as meant: no `v-if`, `:zIndex` or `:resizeWidth`
   * is left, the other attributes keep their values and order, and
   * exactly the removed ones are lost.
   */
  lemma AttributeTable(attrs: seq<Attribute>)
    ensures forall i :: 0 <= i < |NewAttrs(attrs)| ==> NewAttrs(attrs)[i].key !in Renames
    ensures Filter(Untouched, NewAttrs(attrs)) == Filter(Untouched, attrs)
    ensures |NewAttrs(attrs)| == |attrs| - CountIf(IsRemoved, attrs)
  {
    var f := (a: Attribute) => Rename(Renames, a);
    ConcatMapAvoids(f, (a: Attribute) => a.key in Renames, attrs);
    ConcatMapKeeps(f, Untouched, attrs);
    ConcatMapLength(f, IsRemoved, attrs);
  }

  /** Exactly one of the two ways to open the floating UI: a renamed `v-if`, or the appended `:isOpened="true"`. */
  lemma AlwaysOpened(attrs: seq<Attribute>)
    ensures HasKey(FixedAttributes(attrs), {":isOpened"})
  {
    var f := (a: Attribute) => Rename(Renames, a);
    if HasKey(attrs, {"v-if"}) {
      var j :| 0 <= j < |attrs| && attrs[j].key in {"v-if"};
      ConcatMapAppend(f, attrs[..j], attrs[j..]);
      ConcatMapAppend(f, [attrs[j]], attrs[j + 1..]);
      assert attrs[j..] == [attrs[j]] + attrs[j + 1..];
      assert attrs == attrs[..j] + attrs[j..];
      ConcatMapOne(f, attrs[j]);
      var k := |NewAttrs(attrs[..j])|;
      assert FixedAttributes(attrs)[k] == Attribute(":isOpened", attrs[j].value);
    } else {
      assert FixedAttributes(attrs)[|NewAttrs(attrs)|] == OpenedTrue;
    }
  }

  // --------------------------------------------------- the loop as written

  /**
   * The state of the source's loop: the shared backing array (its length
   * is the range's length and never changes), the current length of
   * `node.Attributes`, and the hasVIf flag.
   */
  datatype LoopState = LoopState(backing: seq<Attribute>, len: nat, hasVIf: bool)

  predicate ValidState(s: LoopState) {
    s.len <= |s.backing|
  }

  /**
   * One iteration at index n; None is a runtime panic. `attr` is the copy
   * read from the backing array. Writing `node.Attributes[n]` needs
   * n < len; `node.Attributes[n+1:]` needs n + 1 <= len, and the append
   * moves backing[n+1..len] down by one and leaves backing[len-1] as it
   * was.
   */
  function Step(s: LoopState, n: nat): (r: Option<LoopState>)
    requires ValidState(s) && n < |s.backing|
    ensures r.Some? ==> ValidState(r.value) && |r.value.backing| == |s.backing|
  {
    var attr := s.backing[n];
    if attr.key == "v-if" then
      if n < s.len then Some(s.(backing := s.backing[n := Attribute(":isOpened", s.backing[n].value)], hasVIf := true))
      else None
    else if IsRemoved(attr) then
      if n + 1 <= s.len then Some(s.(backing := s.backing[..n] + s.backing[n + 1..s.len] + s.backing[s.len - 1..], len := s.len - 1))
      else None
    else Some(s)
  }

  /** The iterations from index n to the end of the range. */
  function Loop(s: LoopState, n: nat): (r: Option<LoopState>)
    requires ValidState(s) && n <= |s.backing|
    ensures r.Some? ==> ValidState(r.value) && |r.value.backing| == |s.backing|
    decreases |s.backing| - n
  {
    if n == |s.backing| then Some(s)
    else match Step(s, n)
      case None => None
      case Some(s') => Loop(s', n + 1)
  }

  /** The attribute list the source produces, or None where it panics. */
  function AsWritten(attrs: seq<Attribute>): Option<seq<Attribute>> {
    match Loop(LoopState(attrs, |attrs|, false), 0)
    case None => None
    case Some(s) => Some(s.backing[..s.len] + (if s.hasVIf then [] else [OpenedTrue]))
  }

  /** The removal `append(a[:n], a[n+1:]...)` on a backing array of fixed size: shift left, keep the last slot. */
  method RemoveAt(a: array<Attribute>, len: nat, n: nat)
    requires n + 1 <= len <= a.Length
    modifies a
    ensures a[..] == old(a[..n]) + old(a[n + 1..len]) + old(a[len - 1..])
  {
    ghost var b := a[..];
    var k := n;
    while k < len - 1
      invariant n <= k <= len - 1
      invariant a[..k] == b[..n] + b[n + 1..k + 1]
      invariant a[k..] == b[k..]
      decreases len - 1 - k
    {
      a[k] := a[k + 1];
      assert a[..k + 1] == a[..k] + [b[k + 1]];
      assert b[n + 1..k + 2] == b[n + 1..k + 1] + [b[k + 1]];
      k := k + 1;
    }
    assert a[..] == a[..k] + a[k..];
  }

  /** The effect of the source's Fix callback on one element, None where it panics. */
  function FixedAsWritten(e: ElementNode): Option<ElementNode> {
    if e.tag != OldTag then Some(e)
    else match AsWritten(e.attributes)
      case None => None
      case Some(attrs) => Some(e.(tag := NewTag, attributes := attrs))
  }

  /** The source's Fix callback, line by line; None where it panics. */
  method FixAsWritten(e: ElementNode) returns (r: Option<ElementNode>)
    ensures r == FixedAsWritten(e)
  {
    if e.tag != OldTag {
      return Some(e);
    }
    var rangeLen := |e.attributes|;
    var a := new Attribute[rangeLen](i requires 0 <= i < rangeLen => e.attributes[i]);
    var len := rangeLen;
    var hasVIf := false;
    assert a[..] == e.attributes;
    for n := 0 to rangeLen
      invariant len <= a.Length == rangeLen
      invariant Loop(LoopState(a[..], len, hasVIf), n) == Loop(LoopState(e.attributes, rangeLen, false), 0)
    {
      ghost var s := LoopState(a[..], len, hasVIf);
      var attr := a[n];
      if attr.key == "v-if" {
        if n >= len {
          return None;
        }
        a[n] := Attribute(":isOpened", a[n].value);
        hasVIf := true;
      }
      if attr.key == ":zIndex" || attr.key == ":resizeWidth" {
        if n + 1 > len {
          return None;
        }
        RemoveAt(a, len, n);
        len := len - 1;
      }
      assert Step(s, n) == Some(LoopState(a[..], len, hasVIf));
    }
    ghost var final := LoopState(a[..], len, hasVIf);
    assert Loop(final, rangeLen) == Some(final);
    assert final.backing[..final.len] == a[..len];
    assert AsWritten(e.attributes) == Some(a[..len] + (if hasVIf then [] else [OpenedTrue]));
    var attrs := a[..len];
    if !hasVIf {
      attrs := attrs + [OpenedTrue];
    } else {
      assert attrs + [] == attrs;
    }
    return Some(e.(tag := NewTag, attributes := attrs));
  }

  /** One iteration on an attribute that is not removed: the backing array gets its meant rewrite in place. */
  lemma StepWithoutRemoval(s: LoopState, n: nat)
    requires ValidState(s) && n < s.len && !IsRemoved(s.backing[n])
    ensures |Rename(Renames, s.backing[n])| == 1
    ensures Step(s, n) == Some(LoopState(s.backing[n := Rename(Renames, s.backing[n])[0]], s.len, s.hasVIf || s.backing[n].key == "v-if"))
  {
    var b := s.backing;
    if b[n].key != "v-if" {
      assert b[n := b[n]] == b;
    }
  }

  /**
   * Without `:zIndex` and `:resizeWidth` the loop as written does what the
   * rule means: nothing is removed, so nothing shifts.
   */
  lemma {:induction false} LoopWithoutRemoval(s: LoopState, n: nat)
    requires ValidState(s) && s.len == |s.backing| && n <= |s.backing|
    requires forall k :: n <= k < |s.backing| ==> !IsRemoved(s.backing[k])
    ensures Loop(s, n) == Some(LoopState(s.backing[..n] + NewAttrs(s.backing[n..]), s.len, s.hasVIf || HasKey(s.backing[n..], {"v-if"})))
    decreases |s.backing| - n
  {
    var b := s.backing;
    if n == |b| {
      LoopEnd(s, n);
    } else {
      StepWithoutRemoval(s, n);
      var x := Rename(Renames, b[n])[0];
      var s' := LoopState(b[n := x], s.len, s.hasVIf || b[n].key == "v-if");
      assert Loop(s, n) == Loop(s', n + 1);
      Recombine(b, n, x);
      LoopWithoutRemoval(s', n + 1);
    }
  }

  /** The end of the range: nothing is left to rewrite. */
  lemma LoopEnd(s: LoopState, n: nat)
    requires ValidState(s) && n == |s.backing|
    ensures Loop(s, n) == Some(LoopState(s.backing[..n] + NewAttrs(s.backing[n..]), s.len, s.hasVIf || HasKey(s.backing[n..], {"v-if"})))
  {
    var b := s.backing;
    assert b[n..] == [];
    assert b[..n] + NewAttrs(b[n..]) == b;
    assert !HasKey(b[n..], {"v-if"});
  }

  /** Rewriting index n in place and then the suffix after it is rewriting the suffix from n. */
  lemma Recombine(b: seq<Attribute>, n: nat, x: Attribute)
    requires n < |b| && !IsRemoved(b[n]) && Rename(Renames, b[n]) == [x]
    requires forall k :: n <= k < |b| ==> !IsRemoved(b[k])
    ensures b[n := x][n + 1..] == b[n + 1..]
    ensures b[n := x][..n + 1] + NewAttrs(b[n := x][n + 1..]) == b[..n] + NewAttrs(b[n..])
    ensures HasKey(b[n..], {"v-if"}) <==> b[n].key == "v-if" || HasKey(b[n + 1..], {"v-if"})
  {
    var c := b[n := x];
    assert c[n + 1..] == b[n + 1..];
    assert c[..n + 1] == b[..n] + [x];
    SplitFirst(b, n);
  }

  /** The meant rewrite and the v-if test of a list split after its first element. */
  lemma SplitFirst(b: seq<Attribute>, n: nat)
    requires n < |b| && !IsRemoved(b[n])
    ensures NewAttrs(b[n..]) == Rename(Renames, b[n]) + NewAttrs(b[n + 1..])
    ensures |Rename(Renames, b[n])| == 1
    ensures HasKey(b[n..], {"v-if"}) <==> b[n].key == "v-if" || HasKey(b[n + 1..], {"v-if"})
  {
    var f := (a: Attribute) => Rename(Renames, a);
    assert b[n..] == [b[n]] + b[n + 1..];
    ConcatMapAppend(f, [b[n]], b[n + 1..]);
    ConcatMapOne(f, b[n]);
    HasKeyCons(b[n], b[n + 1..], {"v-if"});
  }

  /** On an element without `:zIndex` and `:resizeWidth` the source is right. */
  lemma AsWrittenWithoutRemoval(attrs: seq<Attribute>)
    requires forall k :: 0 <= k < |attrs| ==> !IsRemoved(attrs[k])
    ensures AsWritten(attrs) == Some(FixedAttributes(attrs))
  {
    LoopWithoutRemoval(LoopState(attrs, |attrs|, false), 0);
    assert attrs[..0] + NewAttrs(attrs[0..]) == NewAttrs(attrs);
    var f := (a: Attribute) => Rename(Renames, a);
    ConcatMapLength(f, IsRemoved, attrs);
    CountIfNone(IsRemoved, attrs);
    var final := LoopState(NewAttrs(attrs), |attrs|, HasKey(attrs, {"v-if"}));
    assert Loop(LoopState(attrs, |attrs|, false), 0) == Some(final);
    assert final.backing[..final.len] == NewAttrs(attrs);
    if HasKey(attrs, {"v-if"}) {
      assert NewAttrs(attrs) + [] == NewAttrs(attrs);
    }
  }

  lemma NewAttrsOne(a: Attribute)
    ensures NewAttrs([a]) == Rename(Renames, a)
  {
    ConcatMapOne((a: Attribute) => Rename(Renames, a), a);
  }

  lemma NewAttrsTwo(a: Attribute, b: Attribute)
    ensures NewAttrs([a, b]) == Rename(Renames, a) + Rename(Renames, b)
  {
    var f := (a: Attribute) => Rename(Renames, a);
    assert [a, b] == [a] + [b];
    ConcatMapAppend(f, [a], [b]);
    NewAttrsOne(a);
    NewAttrsOne(b);
  }

  lemma NewAttrsThree(a: Attribute, b: Attribute, c: Attribute)
    ensures NewAttrs([a, b, c]) == Rename(Renames, a) + Rename(Renames, b) + Rename(Renames, c)
  {
    var f := (a: Attribute) => Rename(Renames, a);
    assert [a, b, c] == [a, b] + [c];
    ConcatMapAppend(f, [a, b], [c]);
    NewAttrsTwo(a, b);
    NewAttrsOne(c);
  }

  /** A lone `:zIndex`, as in the source's tests, is removed correctly. */
  lemma AsWrittenLoneZIndex(v: string)
    ensures AsWritten([Attribute(":zIndex", v)]) == Some([OpenedTrue])
    ensures FixedAttributes([Attribute(":zIndex", v)]) == [OpenedTrue]
  {
    var b := [Attribute(":zIndex", v)];
    var s0 := LoopState(b, 1, false);
    var s1 := LoopState(b, 0, false);
    assert b[..0] + b[1..1] + b[0..] == b;
    assert Step(s0, 0) == Some(s1);
    assert Loop(s0, 0) == Loop(s1, 1) == Some(s1);
    assert s0 == LoopState(b, |b|, false);
    assert AsWritten(b) == Some(s1.backing[..s1.len] + [OpenedTrue]);
    assert s1.backing[..s1.len] == [];
    assert s1.backing[..s1.len] + [OpenedTrue] == [OpenedTrue];
    assert AsWritten(b) == Some([OpenedTrue]);
    NewAttrsOne(b[0]);
    assert !HasKey(b, {"v-if"});
  }

  /** Counterexample: the `:resizeWidth` right after a `:zIndex` is skipped and survives. */
  lemma AsWrittenSkipsAfterRemoval(v: string, w: string, x: Attribute)
    requires Untouched(x)
    ensures AsWritten([Attribute(":zIndex", v), Attribute(":resizeWidth", w), x]) == Some([Attribute(":resizeWidth", w), x, OpenedTrue])
  {
    var b := [Attribute(":zIndex", v), Attribute(":resizeWidth", w), x];
    var b1 := [Attribute(":resizeWidth", w), x, x];
    var s0 := LoopState(b, 3, false);
    var s1 := LoopState(b1, 2, false);
    assert b[..0] + b[1..3] + b[2..] == b1;
    assert Step(s0, 0) == Some(s1);
    assert Step(s1, 1) == Some(s1);
    assert Step(s1, 2) == Some(s1);
    assert Loop(s0, 0) == Loop(s1, 1);
    assert Loop(s1, 1) == Loop(s1, 2);
    assert Loop(s1, 2) == Loop(s1, 3) == Some(s1);
    assert s0 == LoopState(b, |b|, false);
    assert b1[..2] + [OpenedTrue] == [Attribute(":resizeWidth", w), x, OpenedTrue];
    assert AsWritten(b) == Some(b1[..2] + [OpenedTrue]);
  }

  /** The same list as meant: both removed, `:isOpened="true"` appended. */
  lemma FixedRemovesBoth(v: string, w: string, x: Attribute)
    requires Untouched(x)
    ensures FixedAttributes([Attribute(":zIndex", v), Attribute(":resizeWidth", w), x]) == [x, OpenedTrue]
  {
    var b := [Attribute(":zIndex", v), Attribute(":resizeWidth", w), x];
    NewAttrsThree(b[0], b[1], x);
    assert !HasKey(b, {"v-if"});
  }

  /** Counterexample: a `v-if` right after a `:zIndex` is skipped, kept as it is, and `:isOpened="true"` is added as well. */
  lemma AsWrittenMissesVIf(v: string, w: string, x: Attribute)
    requires Untouched(x)
    ensures AsWritten([Attribute(":zIndex", v), Attribute("v-if", w), x]) == Some([Attribute("v-if", w), x, OpenedTrue])
  {
    var b := [Attribute(":zIndex", v), Attribute("v-if", w), x];
    var b1 := [Attribute("v-if", w), x, x];
    var s0 := LoopState(b, 3, false);
    var s1 := LoopState(b1, 2, false);
    assert b[..0] + b[1..3] + b[2..] == b1;
    assert Step(s0, 0) == Some(s1);
    assert Step(s1, 1) == Some(s1);
    assert Step(s1, 2) == Some(s1);
    assert Loop(s0, 0) == Loop(s1, 1);
    assert Loop(s1, 1) == Loop(s1, 2);
    assert Loop(s1, 2) == Loop(s1, 3) == Some(s1);
    assert s0 == LoopState(b, |b|, false);
    assert b1[..2] + [OpenedTrue] == [Attribute("v-if", w), x, OpenedTrue];
    assert AsWritten(b) == Some(b1[..2] + [OpenedTrue]);
  }

  /** The same list as meant: the `v-if` opens the floating UI and nothing is appended. */
  lemma FixedRenamesVIf(v: string, w: string, x: Attribute)
    requires Untouched(x)
    ensures FixedAttributes([Attribute(":zIndex", v), Attribute("v-if", w), x]) == [Attribute(":isOpened", w), x]
  {
    var b := [Attribute(":zIndex", v), Attribute("v-if", w), x];
    NewAttrsThree(b[0], b[1], x);
    assert b[1].key in {"v-if"};
  }

  /** Counterexample: two removable attributes in a row make the second removal slice past the length, a panic. */
  lemma AsWrittenPanicsOnTwoRemovals(v: string, w: string)
    ensures AsWritten([Attribute(":zIndex", v), Attribute(":resizeWidth", w)]) == None
  {
    var b := [Attribute(":zIndex", v), Attribute(":resizeWidth", w)];
    var b1 := [Attribute(":resizeWidth", w), Attribute(":resizeWidth", w)];
    var s0 := LoopState(b, 2, false);
    var s1 := LoopState(b1, 1, false);
    assert b[..0] + b[1..2] + b[1..] == b1;
    assert Step(s0, 0) == Some(s1);
    assert Step(s1, 1) == None;
    assert Loop(s0, 0) == Loop(s1, 1) == None;
  }

  /** Counterexample: a `v-if` after a `:zIndex` at the end is read from past the length and written there, a panic. */
  lemma AsWrittenPanicsOnTrailingVIf(v: string, w: string)
    ensures AsWritten([Attribute(":zIndex", v), Attribute("v-if", w)]) == None
  {
    var b := [Attribute(":zIndex", v), Attribute("v-if", w)];
    var b1 := [Attribute("v-if", w), Attribute("v-if", w)];
    var s0 := LoopState(b, 2, false);
    var s1 := LoopState(b1, 1, false);
    assert b[..0] + b[1..2] + b[1..] == b1;
    assert Step(s0, 0) == Some(s1);
    assert Step(s1, 1) == None;
    assert Loop(s0, 0) == Loop(s1, 1) == None;
  }

  /** The children are not touched. */
  lemma FixedChildren(e: ElementNode)
    ensures ChildrenFrom(Fixed(e), e)
  {
  }
}
