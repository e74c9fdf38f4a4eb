/**
 * The markup tree of internal/html/parser.go: attributes, raw text and
 * elements, their serialisation (Dump) and the pre-order traversal that
 * hands every element to a rewrite callback (TraverseNode).
 */
module Html {

  /** One `key="value"` pair; a valueless attribute has the empty value. */
  datatype Attribute = Attribute(key: string, value: string)

  /** A node is either verbatim text or an element. */
  datatype Node = Raw(text: string) | Element(el: ElementNode)

  /**
   * An element. `line` stands for the `node.Line` the rules copy into
   * their diagnostics. The Go `ElementNode` struct declares no such field
   * and the parser records no position, so every parsed element has
   * line 0 here.
   */
  datatype ElementNode = ElementNode(
    tag: string,
    attributes: seq<Attribute>,
    children: seq<Node>,
    selfClosing: bool,
    line: nat)

  /** An element with no attributes, no children, not self-closing and line 0. */
  function EmptyElement(tag: string): ElementNode {
    ElementNode(tag, [], [], false, 0)
  }

  // ---------------------------------------------------------------- sizes

  function NodeSize(n: Node): (r: nat)
    ensures r >= 1
    decreases n
  {
    match n
    case Raw(_) => 1
    case Element(e) => ElemSize(e)
  }

  function ElemSize(e: ElementNode): (r: nat)
    ensures r == 1 + NodesSize(e.children)
    decreases e
  {
    1 + NodesSize(e.children)
  }

  function NodesSize(ns: seq<Node>): nat
    decreases ns
  {
    if ns == [] then 0 else NodeSize(ns[0]) + NodesSize(ns[1..])
  }

  /** Every element among `ns` is smaller than the whole list. */
  lemma {:induction false} MemberSizeBelow(ns: seq<Node>, x: Node)
    requires x in ns
    ensures NodeSize(x) <= NodesSize(ns)
    decreases |ns|
  {
    if ns[0] != x {
      MemberSizeBelow(ns[1..], x);
    }
  }

  /** A child element of `e` is strictly smaller than `e`. */
  lemma ChildSizeBelow(e: ElementNode, x: Node)
    requires x in e.children && x.Element?
    ensures ElemSize(x.el) < ElemSize(e)
  {
    MemberSizeBelow(e.children, x);
  }

  // ---------------------------------------------------------------- Dump

  /** ` key="value"`, with no escaping of the value. */
  function DumpAttr(a: Attribute): string {
    " " + a.key + "=\"" + a.value + "\""
  }

  function DumpAttrs(attrs: seq<Attribute>): string {
    if attrs == [] then "" else DumpAttr(attrs[0]) + DumpAttrs(attrs[1..])
  }

  /** Node.Dump: raw text verbatim, elements through DumpElement. */
  function DumpNode(n: Node): string
    decreases n
  {
    match n
    case Raw(t) => t
    case Element(e) => DumpElement(e)
  }

  /** ElementNode.Dump: `<tag`, the attributes in order, then `/>` or `>` children `</tag>`. */
  function DumpElement(e: ElementNode): string
    decreases e
  {
    "<" + e.tag + DumpAttrs(e.attributes)
      + (if e.selfClosing then "/>" else ">" + DumpAll(e.children) + "</" + e.tag + ">")
  }

  /** The concatenated dumps of a node list, as the engine writes a file back. */
  function DumpAll(ns: seq<Node>): string
    decreases ns
  {
    if ns == [] then "" else DumpNode(ns[0]) + DumpAll(ns[1..])
  }

  lemma {:induction false} DumpAllAppend(a: seq<Node>, b: seq<Node>)
    ensures DumpAll(a + b) == DumpAll(a) + DumpAll(b)
    decreases |a|
  {
    if a != [] {
      assert (a + b)[0] == a[0] && (a + b)[1..] == a[1..] + b;
      DumpAllAppend(a[1..], b);
    } else {
      assert a + b == b;
    }
  }

  // ------------------------------------------------------------- pre-order

  /** The elements of `ns` in document (pre-)order. */
  function PreOrder(ns: seq<Node>): seq<ElementNode>
    decreases ns
  {
    if ns == [] then [] else PreOrderNode(ns[0]) + PreOrder(ns[1..])
  }

  function PreOrderNode(n: Node): seq<ElementNode>
    decreases n
  {
    match n
    case Raw(_) => []
    case Element(e) => [e] + PreOrder(e.children)
  }

  lemma {:induction false} PreOrderAppend(a: seq<Node>, b: seq<Node>)
    ensures PreOrder(a + b) == PreOrder(a) + PreOrder(b)
    decreases |a|
  {
    if a != [] {
      assert (a + b)[0] == a[0] && (a + b)[1..] == a[1..] + b;
      PreOrderAppend(a[1..], b);
    } else {
      assert a + b == b;
    }
  }

  /** No element in the list carries tag `t`. */
  predicate NoTag(es: seq<ElementNode>, t: string) {
    forall i :: 0 <= i < |es| ==> es[i].tag != t
  }

  // ------------------------------------------------------------- traversal

  /**
   * `rank` bounds the depth of what the traversal will visit: every child
   * element of a rewritten element ranks below the element it came from.
   * A rewrite that only keeps, drops or clears children satisfies this for
   * ElemSize; one that adds children (the card rule) needs its own rank.
   */
  ghost predicate Decreasing(f: ElementNode -> ElementNode, rank: ElementNode -> nat) {
    forall e: ElementNode, i :: 0 <= i < |f(e).children| && f(e).children[i].Element? ==>
      rank(f(e).children[i].el) < rank(e)
  }

  predicate RankedBelow(cs: seq<Node>, rank: ElementNode -> nat, bound: nat) {
    forall i :: 0 <= i < |cs| && cs[i].Element? ==> rank(cs[i].el) < bound
  }

  /**
   * TraverseNode on one element: the callback runs first, then the
   * traversal descends into the children the callback left behind.
   */
  function TraverseElem(e: ElementNode, f: ElementNode -> ElementNode, rank: ElementNode -> nat): ElementNode
    requires Decreasing(f, rank)
    decreases rank(e), 1
  {
    var g := f(e);
    g.(children := TraverseChildren(g.children, f, rank, rank(e)))
  }

  function TraverseChildren(cs: seq<Node>, f: ElementNode -> ElementNode, rank: ElementNode -> nat, bound: nat): (r: seq<Node>)
    requires Decreasing(f, rank) && RankedBelow(cs, rank, bound)
    ensures |r| == |cs|
    decreases bound, 0, |cs|
  {
    if cs == [] then []
    else
      var head := match cs[0]
        case Raw(t) => Raw(t)
        case Element(c) => Element(TraverseElem(c, f, rank));
      [head] + TraverseChildren(cs[1..], f, rank, bound)
  }

  /** TraverseNode on a top-level list: raw nodes are never handed to `f`. */
  function Traverse(ns: seq<Node>, f: ElementNode -> ElementNode, rank: ElementNode -> nat): (r: seq<Node>)
    requires Decreasing(f, rank)
    ensures |r| == |ns|
    ensures forall i :: 0 <= i < |ns| ==> (ns[i].Raw? <==> r[i].Raw?) && (ns[i].Raw? ==> r[i] == ns[i])
    decreases |ns|
  {
    if ns == [] then []
    else
      var head := match ns[0]
        case Raw(t) => Raw(t)
        case Element(e) => Element(TraverseElem(e, f, rank));
      [head] + Traverse(ns[1..], f, rank)
  }

  /** The traversal of a child list, one child at a time. */
  lemma {:induction false} TraverseChildrenAt(cs: seq<Node>, f: ElementNode -> ElementNode, rank: ElementNode -> nat, bound: nat, j: nat)
    requires Decreasing(f, rank) && RankedBelow(cs, rank, bound) && j < |cs|
    ensures TraverseChildren(cs, f, rank, bound)[j]
      == match cs[j] case Raw(t) => Raw(t) case Element(c) => Element(TraverseElem(c, f, rank))
    decreases j
  {
    if j > 0 {
      assert RankedBelow(cs[1..], rank, bound) by {
        forall i | 0 <= i < |cs[1..]| && cs[1..][i].Element? ensures rank(cs[1..][i].el) < bound {
          assert cs[1..][i] == cs[i + 1];
        }
      }
      TraverseChildrenAt(cs[1..], f, rank, bound, j - 1);
    }
  }

  /** The traversal of a top-level list, one node at a time. */
  lemma {:induction false} TraverseAt(ns: seq<Node>, f: ElementNode -> ElementNode, rank: ElementNode -> nat, j: nat)
    requires Decreasing(f, rank) && j < |ns|
    ensures Traverse(ns, f, rank)[j]
      == match ns[j] case Raw(t) => Raw(t) case Element(e) => Element(TraverseElem(e, f, rank))
    decreases j
  {
    if j > 0 {
      TraverseAt(ns[1..], f, rank, j - 1);
    }
  }

  /** The elements that `f` is called on, in call order. */
  function VisitsElem(e: ElementNode, f: ElementNode -> ElementNode, rank: ElementNode -> nat): seq<ElementNode>
    requires Decreasing(f, rank)
    decreases rank(e), 1
  {
    [e] + VisitsChildren(f(e).children, f, rank, rank(e))
  }

  function VisitsChildren(cs: seq<Node>, f: ElementNode -> ElementNode, rank: ElementNode -> nat, bound: nat): seq<ElementNode>
    requires Decreasing(f, rank) && RankedBelow(cs, rank, bound)
    decreases bound, 0, |cs|
  {
    if cs == [] then []
    else
      (match cs[0] case Raw(_) => [] case Element(c) => VisitsElem(c, f, rank))
      + VisitsChildren(cs[1..], f, rank, bound)
  }

  function Visits(ns: seq<Node>, f: ElementNode -> ElementNode, rank: ElementNode -> nat): seq<ElementNode>
    requires Decreasing(f, rank)
    decreases |ns|
  {
    if ns == [] then []
    else
      (match ns[0] case Raw(_) => [] case Element(e) => VisitsElem(e, f, rank))
      + Visits(ns[1..], f, rank)
  }

  /**
   * TraverseNode as the source runs it: for each element of the list, the
   * callback first, then the same walk over the children the callback
   * left.
   */
  method TraverseNode(ns: seq<Node>, f: ElementNode -> ElementNode, ghost rank: ElementNode -> nat) returns (r: seq<Node>)
    requires Decreasing(f, rank)
    ensures r == Traverse(ns, f, rank)
  {
    r := [];
    for i := 0 to |ns|
      invariant |r| == i
      invariant forall j :: 0 <= j < i ==> r[j] == Traverse(ns, f, rank)[j]
    {
      TraverseAt(ns, f, rank, i);
      match ns[i]
      case Raw(t) =>
        r := r + [Raw(t)];
      case Element(e) =>
        var e' := TraverseElement(e, f, rank);
        r := r + [Element(e')];
    }
  }

  method TraverseElement(e: ElementNode, f: ElementNode -> ElementNode, ghost rank: ElementNode -> nat) returns (r: ElementNode)
    requires Decreasing(f, rank)
    ensures r == TraverseElem(e, f, rank)
    decreases rank(e), 1
  {
    var g := f(e);
    var children := TraverseChildNodes(g.children, f, rank, rank(e));
    r := g.(children := children);
  }

  method TraverseChildNodes(cs: seq<Node>, f: ElementNode -> ElementNode, ghost rank: ElementNode -> nat, ghost bound: nat) returns (r: seq<Node>)
    requires Decreasing(f, rank) && RankedBelow(cs, rank, bound)
    ensures r == TraverseChildren(cs, f, rank, bound)
    decreases bound, 0
  {
    r := [];
    for i := 0 to |cs|
      invariant |r| == i
      invariant forall j :: 0 <= j < i ==> r[j] == TraverseChildren(cs, f, rank, bound)[j]
    {
      TraverseChildrenAt(cs, f, rank, bound, i);
      match cs[i]
      case Raw(t) =>
        r := r + [Raw(t)];
      case Element(c) =>
        var c' := TraverseElement(c, f, rank);
        r := r + [Element(c')];
    }
  }

  /** Two elements agree on everything but their children. */
  predicate SameHead(a: ElementNode, b: ElementNode) {
    a.tag == b.tag && a.attributes == b.attributes && a.selfClosing == b.selfClosing && a.line == b.line
  }

  /** `ps[i]` is what `f` made of `vs[i]`, children aside. */
  predicate Mirrors(vs: seq<ElementNode>, ps: seq<ElementNode>, f: ElementNode -> ElementNode) {
    |vs| == |ps| && forall i :: 0 <= i < |vs| ==> SameHead(f(vs[i]), ps[i])
  }

  lemma MirrorsAppend(v1: seq<ElementNode>, p1: seq<ElementNode>, v2: seq<ElementNode>, p2: seq<ElementNode>, f: ElementNode -> ElementNode)
    requires Mirrors(v1, p1, f) && Mirrors(v2, p2, f)
    ensures Mirrors(v1 + v2, p1 + p2, f)
  {
    forall i | 0 <= i < |v1 + v2|
      ensures SameHead(f((v1 + v2)[i]), (p1 + p2)[i])
    {
      if i >= |v1| {
        assert (v1 + v2)[i] == v2[i - |v1|] && (p1 + p2)[i] == p2[i - |v1|];
      }
    }
  }

  lemma {:induction false} VisitsElemMirror(e: ElementNode, f: ElementNode -> ElementNode, rank: ElementNode -> nat)
    requires Decreasing(f, rank)
    ensures Mirrors(VisitsElem(e, f, rank), PreOrderNode(Element(TraverseElem(e, f, rank))), f)
    decreases rank(e), 1
  {
    var g := f(e);
    VisitsChildrenMirror(g.children, f, rank, rank(e));
    MirrorsAppend([e], [TraverseElem(e, f, rank)],
      VisitsChildren(g.children, f, rank, rank(e)), PreOrder(TraverseChildren(g.children, f, rank, rank(e))), f);
  }

  lemma {:induction false} VisitsChildrenMirror(cs: seq<Node>, f: ElementNode -> ElementNode, rank: ElementNode -> nat, bound: nat)
    requires Decreasing(f, rank) && RankedBelow(cs, rank, bound)
    ensures Mirrors(VisitsChildren(cs, f, rank, bound), PreOrder(TraverseChildren(cs, f, rank, bound)), f)
    decreases bound, 0, |cs|
  {
    if cs != [] {
      var r := TraverseChildren(cs, f, rank, bound);
      assert r[1..] == TraverseChildren(cs[1..], f, rank, bound);
      VisitsChildrenMirror(cs[1..], f, rank, bound);
      match cs[0]
      case Raw(_) =>
        MirrorsAppend([], [], VisitsChildren(cs[1..], f, rank, bound), PreOrder(r[1..]), f);
      case Element(c) =>
        VisitsElemMirror(c, f, rank);
        MirrorsAppend(VisitsElem(c, f, rank), PreOrderNode(r[0]),
          VisitsChildren(cs[1..], f, rank, bound), PreOrder(r[1..]), f);
    }
  }

  /**
   * TraverseNode calls `f` exactly once per element reachable through the
   * final child lists, in pre-order: the i-th call's result is the i-th
   * element of the traversed tree, up to its (traversed) children.
   */
  lemma {:induction false} TraverseVisitsPreOrder(ns: seq<Node>, f: ElementNode -> ElementNode, rank: ElementNode -> nat)
    requires Decreasing(f, rank)
    ensures Mirrors(Visits(ns, f, rank), PreOrder(Traverse(ns, f, rank)), f)
    decreases |ns|
  {
    if ns != [] {
      var r := Traverse(ns, f, rank);
      assert r[1..] == Traverse(ns[1..], f, rank);
      TraverseVisitsPreOrder(ns[1..], f, rank);
      match ns[0]
      case Raw(_) =>
        MirrorsAppend([], [], Visits(ns[1..], f, rank), PreOrder(r[1..]), f);
      case Element(e) =>
        VisitsElemMirror(e, f, rank);
        MirrorsAppend(VisitsElem(e, f, rank), PreOrderNode(r[0]),
          Visits(ns[1..], f, rank), PreOrder(r[1..]), f);
    }
  }

  // ------------------------------------------- traversal: generic properties

  lemma {:induction false} ElemAvoidsTag(e: ElementNode, f: ElementNode -> ElementNode, rank: ElementNode -> nat, t: string)
    requires Decreasing(f, rank)
    requires forall x :: f(x).tag != t
    ensures NoTag(PreOrderNode(Element(TraverseElem(e, f, rank))), t)
    decreases rank(e), 1
  {
    var g := f(e);
    ChildrenAvoidTag(g.children, f, rank, rank(e), t);
  }

  lemma {:induction false} ChildrenAvoidTag(cs: seq<Node>, f: ElementNode -> ElementNode, rank: ElementNode -> nat, bound: nat, t: string)
    requires Decreasing(f, rank) && RankedBelow(cs, rank, bound)
    requires forall x :: f(x).tag != t
    ensures NoTag(PreOrder(TraverseChildren(cs, f, rank, bound)), t)
    decreases bound, 0, |cs|
  {
    if cs != [] {
      var r := TraverseChildren(cs, f, rank, bound);
      assert r[1..] == TraverseChildren(cs[1..], f, rank, bound);
      ChildrenAvoidTag(cs[1..], f, rank, bound, t);
      if cs[0].Element? {
        ElemAvoidsTag(cs[0].el, f, rank, t);
      }
    }
  }

  /** When `f` never produces tag `t`, no element of the traversed tree carries it. */
  lemma {:induction false} TraverseAvoidsTag(ns: seq<Node>, f: ElementNode -> ElementNode, rank: ElementNode -> nat, t: string)
    requires Decreasing(f, rank)
    requires forall x :: f(x).tag != t
    ensures NoTag(PreOrder(Traverse(ns, f, rank)), t)
    decreases |ns|
  {
    if ns != [] {
      var r := Traverse(ns, f, rank);
      assert r[1..] == Traverse(ns[1..], f, rank);
      TraverseAvoidsTag(ns[1..], f, rank, t);
      if ns[0].Element? {
        ElemAvoidsTag(ns[0].el, f, rank, t);
      }
    }
  }

  lemma NoTagSplit(a: seq<ElementNode>, b: seq<ElementNode>, t: string)
    ensures NoTag(a + b, t) <==> NoTag(a, t) && NoTag(b, t)
  {
    if NoTag(a + b, t) {
      forall i | 0 <= i < |a| ensures a[i].tag != t {
        assert a[i] == (a + b)[i];
      }
      forall i | 0 <= i < |b| ensures b[i].tag != t {
        assert b[i] == (a + b)[|a| + i];
      }
    }
  }

  /** A member of a list free of `t` has a subtree free of `t`. */
  lemma {:induction false} NoTagMember(cs: seq<Node>, c: Node, t: string)
    requires c in cs && NoTag(PreOrder(cs), t)
    ensures NoTag(PreOrderNode(c), t)
    decreases |cs|
  {
    NoTagSplit(PreOrderNode(cs[0]), PreOrder(cs[1..]), t);
    if cs[0] != c {
      NoTagMember(cs[1..], c, t);
    }
  }

  /** A list made only of members of a list free of `t` is free of `t`. */
  lemma {:induction false} NoTagMembers(cs: seq<Node>, ds: seq<Node>, t: string)
    requires NoTag(PreOrder(cs), t)
    requires forall i :: 0 <= i < |ds| ==> ds[i] in cs
    ensures NoTag(PreOrder(ds), t)
    decreases |ds|
  {
    if ds != [] {
      NoTagMember(cs, ds[0], t);
      NoTagMembers(cs, ds[1..], t);
      NoTagSplit(PreOrderNode(ds[0]), PreOrder(ds[1..]), t);
    }
  }

  /** `f` never brings tag `t` into a subtree that does not have it. */
  ghost predicate KeepsAbsent(f: ElementNode -> ElementNode, t: string) {
    forall x :: NoTag(PreOrderNode(Element(x)), t) ==> NoTag(PreOrderNode(Element(f(x))), t)
  }

  lemma {:induction false} ElemKeepsAbsent(e: ElementNode, f: ElementNode -> ElementNode, rank: ElementNode -> nat, t: string)
    requires Decreasing(f, rank) && KeepsAbsent(f, t)
    requires NoTag(PreOrderNode(Element(e)), t)
    ensures NoTag(PreOrderNode(Element(TraverseElem(e, f, rank))), t)
    decreases rank(e), 1
  {
    var g := f(e);
    assert NoTag(PreOrderNode(Element(g)), t);
    assert PreOrderNode(Element(g)) == [g] + PreOrder(g.children);
    NoTagSplit([g], PreOrder(g.children), t);
    ChildrenKeepAbsent(g.children, f, rank, rank(e), t);
    var r := TraverseElem(e, f, rank);
    assert r.tag == g.tag && r.children == TraverseChildren(g.children, f, rank, rank(e));
    assert PreOrderNode(Element(r)) == [r] + PreOrder(r.children);
    assert [g][0] == g;
    assert NoTag([r], t);
    NoTagSplit([r], PreOrder(r.children), t);
  }

  lemma {:induction false} ChildrenKeepAbsent(cs: seq<Node>, f: ElementNode -> ElementNode, rank: ElementNode -> nat, bound: nat, t: string)
    requires Decreasing(f, rank) && RankedBelow(cs, rank, bound) && KeepsAbsent(f, t)
    requires NoTag(PreOrder(cs), t)
    ensures NoTag(PreOrder(TraverseChildren(cs, f, rank, bound)), t)
    decreases bound, 0, |cs|
  {
    if cs != [] {
      var r := TraverseChildren(cs, f, rank, bound);
      assert r[1..] == TraverseChildren(cs[1..], f, rank, bound);
      NoTagSplit(PreOrderNode(cs[0]), PreOrder(cs[1..]), t);
      NoTagSplit(PreOrderNode(r[0]), PreOrder(r[1..]), t);
      ChildrenKeepAbsent(cs[1..], f, rank, bound, t);
      if cs[0].Element? {
        ElemKeepsAbsent(cs[0].el, f, rank, t);
      }
    }
  }

  /** A rewrite that keeps absent tags absent leaves a tree free of `t` free of `t`. */
  lemma {:induction false} TraverseKeepsAbsent(ns: seq<Node>, f: ElementNode -> ElementNode, rank: ElementNode -> nat, t: string)
    requires Decreasing(f, rank) && KeepsAbsent(f, t)
    requires NoTag(PreOrder(ns), t)
    ensures NoTag(PreOrder(Traverse(ns, f, rank)), t)
    decreases |ns|
  {
    if ns != [] {
      var r := Traverse(ns, f, rank);
      assert r[1..] == Traverse(ns[1..], f, rank);
      NoTagSplit(PreOrderNode(ns[0]), PreOrder(ns[1..]), t);
      NoTagSplit(PreOrderNode(r[0]), PreOrder(r[1..]), t);
      TraverseKeepsAbsent(ns[1..], f, rank, t);
      if ns[0].Element? {
        ElemKeepsAbsent(ns[0].el, f, rank, t);
      }
    }
  }

  /** `f` leaves every element of the list alone. */
  predicate FixesAll(es: seq<ElementNode>, f: ElementNode -> ElementNode) {
    forall i :: 0 <= i < |es| ==> f(es[i]) == es[i]
  }

  lemma {:induction false} ElemIdentity(e: ElementNode, f: ElementNode -> ElementNode, rank: ElementNode -> nat)
    requires Decreasing(f, rank)
    requires FixesAll(PreOrderNode(Element(e)), f)
    ensures TraverseElem(e, f, rank) == e
    decreases rank(e), 1
  {
    assert PreOrderNode(Element(e))[0] == e;
    assert f(e) == e;
    assert PreOrder(e.children) == PreOrderNode(Element(e))[1..];
    ChildrenIdentity(e.children, f, rank, rank(e));
  }

  lemma {:induction false} ChildrenIdentity(cs: seq<Node>, f: ElementNode -> ElementNode, rank: ElementNode -> nat, bound: nat)
    requires Decreasing(f, rank) && RankedBelow(cs, rank, bound)
    requires FixesAll(PreOrder(cs), f)
    ensures TraverseChildren(cs, f, rank, bound) == cs
    decreases bound, 0, |cs|
  {
    if cs != [] {
      FixesAllSplit(PreOrderNode(cs[0]), PreOrder(cs[1..]), f);
      ChildrenIdentity(cs[1..], f, rank, bound);
      if cs[0].Element? {
        ElemIdentity(cs[0].el, f, rank);
      }
      assert [cs[0]] + cs[1..] == cs;
    }
  }

  lemma FixesAllSplit(a: seq<ElementNode>, b: seq<ElementNode>, f: ElementNode -> ElementNode)
    requires FixesAll(a + b, f)
    ensures FixesAll(a, f) && FixesAll(b, f)
  {
    forall i | 0 <= i < |b| ensures f(b[i]) == b[i] {
      assert b[i] == (a + b)[|a| + i];
    }
    forall i | 0 <= i < |a| ensures f(a[i]) == a[i] {
      assert a[i] == (a + b)[i];
    }
  }

  /** When `f` fixes every element of the tree, the traversal changes nothing. */
  lemma {:induction false} TraverseIdentity(ns: seq<Node>, f: ElementNode -> ElementNode, rank: ElementNode -> nat)
    requires Decreasing(f, rank)
    requires FixesAll(PreOrder(ns), f)
    ensures Traverse(ns, f, rank) == ns
    decreases |ns|
  {
    if ns != [] {
      FixesAllSplit(PreOrderNode(ns[0]), PreOrder(ns[1..]), f);
      TraverseIdentity(ns[1..], f, rank);
      if ns[0].Element? {
        ElemIdentity(ns[0].el, f, rank);
      }
      assert [ns[0]] + ns[1..] == ns;
    }
  }
}
