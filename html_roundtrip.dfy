/**
 * Dump and the parser of internal/html/parser.go against each other: a
 * tree the parser can build whose attribute values hold no `"` is dumped
 * to text that parses back to the same tree. Dump does not escape values,
 * so a value holding `"` ends its quoted form early and does not survive.
 */
module HtmlRoundTrip {
  import opened Wrappers
  import opened Html
  import opened HtmlParserSpec

  /** No attribute value anywhere in the tree holds `"`. */
  predicate QuoteFreeNode(n: Node)
    decreases n
  {
    match n
    case Raw(_) => true
    case Element(e) => QuoteFreeElement(e)
  }

  predicate QuoteFreeElement(e: ElementNode)
    decreases e
  {
    (forall i :: 0 <= i < |e.attributes| ==> '"' !in e.attributes[i].value)
    && QuoteFree(e.children)
  }

  predicate QuoteFree(ns: seq<Node>)
    decreases ns
  {
    forall i :: 0 <= i < |ns| ==> QuoteFreeNode(ns[i])
  }

  // ------------------------------------------------------- text positions

  lemma ConsAppend<T>(acc: seq<T>, xs: seq<T>)
    requires xs != []
    ensures acc + [xs[0]] + xs[1..] == acc + xs
  {
    assert [xs[0]] + xs[1..] == xs;
  }

  /** The input `s` holds the text `x` at `pos`, byte by byte. */
  predicate At(s: string, pos: nat, x: string)
    decreases |x|
  {
    pos + |x| <= |s| && (x == [] || (s[pos] == x[0] && At(s, pos + 1, x[1..])))
  }

  /** Text held at `pos` lies inside the input. */
  lemma AtBound(s: string, pos: nat, x: string)
    requires At(s, pos, x)
    ensures pos + |x| <= |s|
  {
  }

  /** Every text is held at its own place in the input. */
  lemma {:induction false} AtSuffix(s: string, pos: nat)
    requires pos <= |s|
    ensures At(s, pos, s[pos..])
    decreases |s| - pos
  {
    if pos < |s| {
      assert s[pos..][1..] == s[pos + 1..];
      AtSuffix(s, pos + 1);
    }
  }

  /** Text held at `pos` is the slice of the input there. */
  lemma {:induction false} AtSlice(s: string, pos: nat, x: string)
    requires At(s, pos, x)
    ensures s[pos..pos + |x|] == x
    decreases |x|
  {
    if x != [] {
      AtSlice(s, pos + 1, x[1..]);
      assert s[pos..pos + |x|] == [s[pos]] + s[pos + 1..pos + 1 + |x[1..]|];
      assert x == [x[0]] + x[1..];
    }
  }

  lemma {:induction false} AtSplit(s: string, pos: nat, a: string, b: string)
    requires At(s, pos, a + b)
    ensures At(s, pos, a) && At(s, pos + |a|, b)
    decreases |a|
  {
    if a == [] {
      assert a + b == b;
    } else {
      assert (a + b)[0] == a[0] && (a + b)[1..] == a[1..] + b;
      AtSplit(s, pos + 1, a[1..], b);
    }
  }

  lemma {:induction false} AtIndex(s: string, pos: nat, x: string, i: nat)
    requires At(s, pos, x) && i < |x|
    ensures s[pos + i] == x[i]
    decreases i
  {
    if i > 0 {
      AtIndex(s, pos + 1, x[1..], i - 1);
    }
  }

  /** A dumped tag name is read back whole, given a non-name byte (or the end) after it. */
  lemma {:induction false} TagNameAt(s: string, pos: nat, t: string)
    requires At(s, pos, t) && forall i :: 0 <= i < |t| ==> IsNameByte(t[i])
    requires pos + |t| == |s| || !IsNameByte(s[pos + |t|])
    ensures TagNameEnd(s, pos) == pos + |t|
    decreases |t|
  {
    if t != [] {
      AtIndex(s, pos, t, 0);
      AtSplit(s, pos, [t[0]], t[1..]);
      TagNameAt(s, pos + 1, t[1..]);
    }
  }

  /** A dumped attribute name is read back whole, given a name stop after it. */
  lemma {:induction false} AttrNameAt(s: string, pos: nat, k: string)
    requires At(s, pos, k) && forall i :: 0 <= i < |k| ==> !IsAttrNameStop(k[i])
    requires pos + |k| < |s| && IsAttrNameStop(s[pos + |k|])
    ensures AttrNameEnd(s, pos) == pos + |k|
    decreases |k|
  {
    if k != [] {
      AtIndex(s, pos, k, 0);
      AtSplit(s, pos, [k[0]], k[1..]);
      AttrNameAt(s, pos + 1, k[1..]);
    }
  }

  /** A dumped value without `"` runs up to the closing quote. */
  lemma {:induction false} QuoteAt(s: string, pos: nat, v: string)
    requires At(s, pos, v) && '"' !in v
    requires pos + |v| < |s| && s[pos + |v|] == '"'
    ensures QuoteEnd(s, pos) == pos + |v|
    decreases |v|
  {
    if v != [] {
      AtIndex(s, pos, v, 0);
      AtSplit(s, pos, [v[0]], v[1..]);
      QuoteAt(s, pos + 1, v[1..]);
    }
  }

  /** Bytes other than `<` are passed over by the children loop. */
  lemma {:induction false} ChildrenSkipRun(s: string, pos: nat, end: nat, tag: string, rawStart: nat, acc: seq<Node>)
    requires rawStart <= pos <= end <= |s|
    requires forall i :: pos <= i < end ==> s[i] != '<'
    ensures ParseChildren(s, pos, tag, rawStart, acc) == ParseChildren(s, end, tag, rawStart, acc)
    decreases end - pos
  {
    if pos < end {
      ChildrenSkip(s, pos, tag, rawStart, acc);
      ChildrenSkipRun(s, pos + 1, end, tag, rawStart, acc);
    }
  }

  /** Bytes other than `<` are passed over by the node loop. */
  lemma {:induction false} NodesSkipRun(s: string, pos: nat, end: nat, stopTag: string, rawStart: nat, acc: seq<Node>)
    requires rawStart <= pos <= end <= |s|
    requires forall i :: pos <= i < end ==> s[i] != '<'
    ensures ParseNodes(s, pos, stopTag, rawStart, acc) == ParseNodes(s, end, stopTag, rawStart, acc)
    decreases end - pos
  {
    if pos < end {
      NodesSkip(s, pos, stopTag, rawStart, acc);
      NodesSkipRun(s, pos + 1, end, stopTag, rawStart, acc);
    }
  }

  /** Raw text without `<` at `pos` holds no `<` byte of the input. */
  lemma TextAt(s: string, pos: nat, t: string)
    requires At(s, pos, t) && NoLt(t)
    ensures forall i :: pos <= i < pos + |t| ==> s[i] != '<'
  {
    forall i | pos <= i < pos + |t| ensures s[i] != '<' {
      AtIndex(s, pos, t, i - pos);
    }
  }

  /** A dumped closing tag `</tag>` is read as the closing tag of `tag`. */
  lemma ClosingAt(s: string, pos: nat, tag: string)
    requires At(s, pos, Closing(tag)) && IsTagName(tag)
    ensures AtCloseTag(s, pos) && CloseName(s, pos) == tag
    ensures CloseGtPos(s, pos) == pos + 2 + |tag| && Current(s, CloseGtPos(s, pos)) == '>'
  {
    AtSplit(s, pos, "</" + tag, ">");
    AtSplit(s, pos, "</", tag);
    AtIndex(s, pos, "</", 0);
    AtIndex(s, pos, "</", 1);
    AtIndex(s, pos + 2, tag, 0);
    AtIndex(s, pos + 2 + |tag|, ">", 0);
    assert CloseNameStart(s, pos) == pos + 2;
    TagNameAt(s, pos + 2, tag);
    AtSlice(s, pos + 2, tag);
  }

  /** The bytes of one dumped attribute ` key="value"`. */
  lemma AttrAt(s: string, pos: nat, a: Attribute)
    requires At(s, pos, DumpAttr(a))
    ensures s[pos] == ' ' && At(s, pos + 1, a.key)
    ensures s[pos + 1 + |a.key|] == '=' && s[pos + 2 + |a.key|] == '"'
    ensures At(s, pos + 3 + |a.key|, a.value) && s[pos + 3 + |a.key| + |a.value|] == '"'
  {
    AtSplit(s, pos, " " + a.key + "=\"" + a.value, "\"");
    AtSplit(s, pos, " " + a.key + "=\"", a.value);
    AtSplit(s, pos, " " + a.key, "=\"");
    AtSplit(s, pos, " ", a.key);
    AtIndex(s, pos, " ", 0);
    AtIndex(s, pos + 1 + |a.key|, "=\"", 0);
    AtIndex(s, pos + 1 + |a.key|, "=\"", 1);
    AtIndex(s, pos + 3 + |a.key| + |a.value|, "\"", 0);
  }

  /** A quoted value without `"` is read back whole, the cursor past its closing quote. */
  lemma AttrValueAt(s: string, p: nat, v: string)
    requires p < |s| && s[p] == '"' && At(s, p + 1, v) && '"' !in v
    requires p + 1 + |v| < |s| && s[p + 1 + |v|] == '"'
    ensures AttrValue(s, p) == Step(v, p + 2 + |v|)
  {
    QuoteAt(s, p + 1, v);
    AtSlice(s, p + 1, v);
  }

  /** The attribute loop steps over the leading space of a dumped attribute, onto its name. */
  lemma AttrStartAt(s: string, pos: nat, a: Attribute)
    requires At(s, pos, DumpAttr(a)) && IsAttrName(a.key)
    ensures SkipWs(s, pos) == pos + 1 && !AtTagEnd(s, pos + 1)
  {
    AttrAt(s, pos, a);
    AtIndex(s, pos + 1, a.key, 0);
    assert !IsAttrNameStop(a.key[0]);
  }

  /** One dumped attribute is read back by ReadAttr, from just after its leading space. */
  lemma ReadAttrAt(s: string, pos: nat, a: Attribute)
    requires At(s, pos, DumpAttr(a)) && IsAttrName(a.key) && '"' !in a.value
    ensures ReadAttr(s, pos + 1) == Step(Some(a), pos + |DumpAttr(a)|)
  {
    AttrAt(s, pos, a);
    var p2 := pos + 1 + |a.key|;
    AttrNameAt(s, pos + 1, a.key);
    AtSlice(s, pos + 1, a.key);
    assert SkipWs(s, p2) == p2;
    assert SkipWs(s, p2 + 1) == p2 + 1;
    AttrValueAt(s, p2 + 1, a.value);
  }

  /** Attributes whose dump the attribute loop reads back: named as parseAttrName reads, values without `"`. */
  predicate Readable(attrs: seq<Attribute>) {
    attrs == [] || (IsAttrName(attrs[0].key) && '"' !in attrs[0].value && Readable(attrs[1..]))
  }

  lemma {:induction false} ReadableAll(attrs: seq<Attribute>)
    requires forall i :: 0 <= i < |attrs| ==> IsAttrName(attrs[i].key) && '"' !in attrs[i].value
    ensures Readable(attrs)
    decreases |attrs|
  {
    if attrs != [] {
      assert forall i :: 0 <= i < |attrs[1..]| ==> attrs[1..][i] == attrs[i + 1];
      ReadableAll(attrs[1..]);
    }
  }

  /** The attribute loop reads dumped attributes back, up to the `>` or `/>` after them. */
  lemma {:induction false} AttrLoopAt(s: string, pos: nat, attrs: seq<Attribute>, acc: seq<Attribute>)
    requires At(s, pos, DumpAttrs(attrs)) && Readable(attrs) && TagEndAt(s, pos + |DumpAttrs(attrs)|)
    ensures AttrLoop(s, pos, acc) == Step(acc + attrs, pos + |DumpAttrs(attrs)|)
    decreases |attrs|
  {
    if attrs == [] {
      AttrLoopEndAt(s, pos, acc);
      assert acc + attrs == acc;
    } else {
      var p := AttrLoopFirstAt(s, pos, attrs, acc);
      AttrLoopAt(s, p, attrs[1..], acc + [attrs[0]]);
      ConsAppend(acc, attrs);
    }
  }

  /** The first round of the attribute loop over dumped attributes, and where the rest start. */
  lemma AttrLoopFirstAt(s: string, pos: nat, attrs: seq<Attribute>, acc: seq<Attribute>) returns (p: nat)
    requires attrs != [] && At(s, pos, DumpAttrs(attrs)) && Readable(attrs)
    ensures p + |DumpAttrs(attrs[1..])| == pos + |DumpAttrs(attrs)|
    ensures At(s, p, DumpAttrs(attrs[1..])) && Readable(attrs[1..])
    ensures AttrLoop(s, pos, acc) == AttrLoop(s, p, acc + [attrs[0]])
  {
    p := pos + |DumpAttr(attrs[0])|;
    AtSplit(s, pos, DumpAttr(attrs[0]), DumpAttrs(attrs[1..]));
    AttrLoopOneAt(s, pos, attrs[0], acc);
  }

  /** The input holds `>` or `/>` at `q`. */
  predicate TagEndAt(s: string, q: nat) {
    q + 1 < |s| && (s[q] == '>' || (s[q] == '/' && s[q + 1] == '>'))
  }

  /** The attribute loop stops at `>` or `/>`. */
  lemma AttrLoopEndAt(s: string, pos: nat, acc: seq<Attribute>)
    requires TagEndAt(s, pos)
    ensures AttrLoop(s, pos, acc) == Step(acc, pos)
  {
    assert Peek(s, pos, 2) == [s[pos], s[pos + 1]];
    AttrLoopStops(s, pos, acc);
  }

  /** One round of the attribute loop reads one dumped attribute. */
  lemma AttrLoopOneAt(s: string, pos: nat, a: Attribute, acc: seq<Attribute>)
    requires At(s, pos, DumpAttr(a)) && IsAttrName(a.key) && '"' !in a.value
    ensures AttrLoop(s, pos, acc) == AttrLoop(s, pos + |DumpAttr(a)|, acc + [a])
  {
    AttrStartAt(s, pos, a);
    ReadAttrAt(s, pos, a);
    AttrLoopTakes(s, pos, acc);
  }

  /** A dumped opening tag: `<`, the tag name, then the attribute loop up to `>` or `/>`. */
  lemma OpenTagAt(s: string, pos: nat, tag: string, attrs: seq<Attribute>)
    requires At(s, pos, "<" + tag + DumpAttrs(attrs)) && IsTagName(tag) && Readable(attrs)
    requires TagEndAt(s, pos + 1 + |tag| + |DumpAttrs(attrs)|)
    ensures pos < |s| && Current(s, pos) == '<' && OpenName(s, pos) == tag
    ensures OpenAttrs(s, pos) == Step(attrs, pos + 1 + |tag| + |DumpAttrs(attrs)|)
  {
    var q0 := TagNameOpenAt(s, pos, tag, attrs);
    AttrLoopAt(s, q0, attrs, []);
    assert [] + attrs == attrs;
  }

  /** The tag name of a dumped opening tag is read whole; the attributes follow it. */
  lemma TagNameOpenAt(s: string, pos: nat, tag: string, attrs: seq<Attribute>) returns (q0: nat)
    requires At(s, pos, "<" + tag + DumpAttrs(attrs)) && IsTagName(tag)
    requires TagEndAt(s, pos + 1 + |tag| + |DumpAttrs(attrs)|)
    ensures q0 == pos + 1 + |tag| && At(s, q0, DumpAttrs(attrs))
    ensures pos < |s| && Current(s, pos) == '<' && OpenName(s, pos) == tag
    ensures TagNameEnd(s, NameStart(s, pos)) == q0
  {
    q0 := pos + 1 + |tag|;
    AtSplit(s, pos, "<" + tag, DumpAttrs(attrs));
    AtSplit(s, pos, "<", tag);
    AtIndex(s, pos, "<", 0);
    AtIndex(s, pos + 1, tag, 0);
    assert NameStart(s, pos) == pos + 1;
    NameEndAt(s, q0, attrs);
    TagNameAt(s, pos + 1, tag);
    AtSlice(s, pos + 1, tag);
  }

  /** Dumped attributes start with a space; without them `>` or `/` follows: never a name byte. */
  lemma NameEndAt(s: string, q0: nat, attrs: seq<Attribute>)
    requires At(s, q0, DumpAttrs(attrs)) && TagEndAt(s, q0 + |DumpAttrs(attrs)|)
    ensures q0 < |s| && !IsNameByte(s[q0])
  {
    if attrs != [] {
      AtIndex(s, q0, DumpAttrs(attrs), 0);
      assert DumpAttrs(attrs)[0] == ' ';
    }
  }

  /** The dumped opening tag of `e` without its final `>` or `/>`. */
  function Head(e: ElementNode): (r: string)
    ensures |r| == 1 + |e.tag| + |DumpAttrs(e.attributes)|
  {
    "<" + e.tag + DumpAttrs(e.attributes)
  }

  /** `</tag>`, the text that closes an element. */
  function Closing(tag: string): (r: string)
    ensures |r| == |tag| + 3
  {
    "</" + tag + ">"
  }

  /** The parts of a dumped self-closing element: the opening tag up to `q`, then `/>`. */
  lemma SelfSplitAt(s: string, pos: nat, e: ElementNode) returns (q: nat)
    requires At(s, pos, DumpElement(e)) && e.selfClosing
    ensures q == pos + |Head(e)| && At(s, pos, Head(e)) && q + 2 == pos + |DumpElement(e)|
    ensures q + 1 < |s| && s[q] == '/' && s[q + 1] == '>'
  {
    q := pos + |Head(e)|;
    assert DumpElement(e) == Head(e) + "/>";
    AtSplit(s, pos, Head(e), "/>");
    AtIndex(s, q, "/>", 0);
    AtIndex(s, q, "/>", 1);
  }

  /** The parts of a dumped element with a closing tag: the opening tag up to `q`, `>`, then the rest. */
  lemma OpenSplitAt(s: string, pos: nat, e: ElementNode) returns (q: nat)
    requires At(s, pos, DumpElement(e)) && !e.selfClosing
    ensures q == pos + |Head(e)| && At(s, pos, Head(e))
    ensures q < |s| && s[q] == '>' && At(s, q + 1, DumpAll(e.children) + Closing(e.tag))
    ensures pos + |DumpElement(e)| == q + 1 + |DumpAll(e.children)| + |e.tag| + 3
  {
    q := pos + |Head(e)|;
    var rest := DumpAll(e.children) + Closing(e.tag);
    assert DumpElement(e) == Head(e) + (">" + rest);
    AtSplit(s, pos, Head(e), ">" + rest);
    AtSplit(s, q, ">", rest);
    AtIndex(s, q, ">", 0);
  }

  /** A dumped element parses back to itself, the cursor just past its dump. */
  lemma {:induction false} ElementAt(s: string, pos: nat, e: ElementNode)
    requires At(s, pos, DumpElement(e)) && WellFormedElement(e) && QuoteFreeElement(e)
    ensures ParseElement(s, pos) == Ok(Step(e, pos + |DumpElement(e)|))
    decreases ElemSize(e), 2
  {
    if e.selfClosing {
      SelfClosingAt(s, pos, e);
    } else {
      OpenElementAt(s, pos, e);
    }
  }

  /** A dumped self-closing element parses back to itself. */
  lemma SelfClosingAt(s: string, pos: nat, e: ElementNode)
    requires At(s, pos, DumpElement(e)) && WellFormedElement(e) && QuoteFreeElement(e) && e.selfClosing
    ensures ParseElement(s, pos) == Ok(Step(e, pos + |DumpElement(e)|))
  {
    var q := SelfSplitAt(s, pos, e);
    ReadableAll(e.attributes);
    OpenTagAt(s, pos, e.tag, e.attributes);
    ElementSelfClosing(s, pos);
    assert e == ElementNode(e.tag, e.attributes, [], true, 0);
  }

  /** A dumped element with a closing tag parses back to itself. */
  lemma {:induction false} OpenElementAt(s: string, pos: nat, e: ElementNode)
    requires At(s, pos, DumpElement(e)) && WellFormedElement(e) && QuoteFreeElement(e) && !e.selfClosing
    ensures ParseElement(s, pos) == Ok(Step(e, pos + |DumpElement(e)|))
    decreases ElemSize(e), 1
  {
    OpenPartsAt(s, pos, e);
    ElementWithChildren(s, pos, e.children, pos + |DumpElement(e)|);
    assert e == ElementNode(e.tag, e.attributes, e.children, false, 0);
  }

  /** The opening tag of a dumped element with a closing tag, then its children up to `</tag>`. */
  lemma {:induction false} OpenPartsAt(s: string, pos: nat, e: ElementNode)
    requires At(s, pos, DumpElement(e)) && WellFormedElement(e) && QuoteFreeElement(e) && !e.selfClosing
    ensures pos < |s| && s[pos] == '<' && OpenName(s, pos) == e.tag && OpenAttrs(s, pos).value == e.attributes
    ensures OpenAttrs(s, pos).pos < |s| && s[OpenAttrs(s, pos).pos] == '>'
    ensures var q := OpenAttrs(s, pos).pos;
      ParseChildren(s, q + 1, e.tag, q + 1, []) == Ok(Step(e.children, pos + |DumpElement(e)|))
    decreases ElemSize(e), 0
  {
    var q := OpenSplitAt(s, pos, e);
    ReadableAll(e.attributes);
    OpenTagAt(s, pos, e.tag, e.attributes);
    ChildrenAt(s, q + 1, e.tag, e.children, []);
    assert [] + e.children == e.children;
  }

  /** The first dumped node of a list and where the rest of the dump starts. */
  lemma ConsAt(s: string, pos: nat, cs: seq<Node>, c: string)
    requires cs != [] && At(s, pos, DumpAll(cs) + c)
    ensures At(s, pos, DumpNode(cs[0])) && At(s, pos + |DumpNode(cs[0])|, DumpAll(cs[1..]) + c)
    ensures |DumpAll(cs)| == |DumpNode(cs[0])| + |DumpAll(cs[1..])|
  {
    assert DumpAll(cs) + c == DumpNode(cs[0]) + (DumpAll(cs[1..]) + c);
    AtSplit(s, pos, DumpNode(cs[0]), DumpAll(cs[1..]) + c);
  }

  /** The first dumped node of a list and where the rest of its dump starts. */
  lemma ConsAtEnd(s: string, pos: nat, cs: seq<Node>)
    requires cs != [] && At(s, pos, DumpAll(cs))
    ensures At(s, pos, DumpNode(cs[0])) && At(s, pos + |DumpNode(cs[0])|, DumpAll(cs[1..]))
    ensures |DumpAll(cs)| == |DumpNode(cs[0])| + |DumpAll(cs[1..])|
  {
    AtSplit(s, pos, DumpNode(cs[0]), DumpAll(cs[1..]));
  }

  /** A suffix of a well-formed, quote-free list is one too; raw text is followed by an element. */
  lemma TailWellFormed(cs: seq<Node>)
    requires cs != [] && WellFormed(cs) && QuoteFree(cs)
    ensures WellFormed(cs[1..]) && QuoteFree(cs[1..])
    ensures WellFormedNode(cs[0]) && QuoteFreeNode(cs[0])
    ensures |cs| > 1 && cs[0].Raw? ==> cs[1].Element?
    ensures NodesSize(cs) == NodeSize(cs[0]) + NodesSize(cs[1..])
  {
    assert forall i :: 0 <= i < |cs| - 1 ==> cs[1..][i] == cs[i + 1];
  }

  /**
   * Dumped children followed by the dumped closing tag parse back to the
   * children, the cursor just past `</tag>`.
   */
  lemma {:induction false} ChildrenAt(s: string, pos: nat, tag: string, cs: seq<Node>, acc: seq<Node>)
    requires At(s, pos, DumpAll(cs) + Closing(tag)) && IsTagName(tag)
    requires WellFormed(cs) && QuoteFree(cs)
    ensures ParseChildren(s, pos, tag, pos, acc) == Ok(Step(acc + cs, pos + |DumpAll(cs)| + |tag| + 3))
    decreases NodesSize(cs), 6
  {
    if cs == [] {
      ChildrenEndAt(s, pos, pos, tag, acc);
      assert acc + RawIfAny(s, pos, pos) == acc + cs;
    } else if cs[0].Raw? {
      RawChildAt(s, pos, tag, cs, acc);
    } else {
      ConsAt(s, pos, cs, Closing(tag));
      TailWellFormed(cs);
      ElementChildAt(s, pos, pos, tag, cs[0].el, cs[1..], acc);
      ConsAppend(acc + RawIfAny(s, pos, pos), cs);
      assert acc + RawIfAny(s, pos, pos) == acc;
    }
  }

  /** The children loop at the dumped closing tag, raw text pending from `rawStart`. */
  lemma ChildrenEndAt(s: string, pos: nat, rawStart: nat, tag: string, acc: seq<Node>)
    requires rawStart <= pos && At(s, pos, DumpAll([]) + Closing(tag)) && IsTagName(tag)
    ensures ParseChildren(s, pos, tag, rawStart, acc) == Ok(Step(acc + RawIfAny(s, rawStart, pos), pos + |tag| + 3))
  {
    assert DumpAll([]) + Closing(tag) == Closing(tag);
    ClosingAt(s, pos, tag);
    ChildrenClosed(s, pos, tag, rawStart, acc);
  }

  /** The children loop over dumped raw text, then the element or closing tag after it. */
  lemma {:induction false} RawChildAt(s: string, pos: nat, tag: string, cs: seq<Node>, acc: seq<Node>)
    requires cs != [] && cs[0].Raw?
    requires At(s, pos, DumpAll(cs) + Closing(tag)) && IsTagName(tag)
    requires WellFormed(cs) && QuoteFree(cs)
    ensures ParseChildren(s, pos, tag, pos, acc) == Ok(Step(acc + cs, pos + |DumpAll(cs)| + |tag| + 3))
    decreases NodesSize(cs), 5
  {
    var t := cs[0].text;
    var p := pos + |t|;
    ConsAt(s, pos, cs, Closing(tag));
    TailWellFormed(cs);
    TextAt(s, pos, t);
    AtSlice(s, pos, t);
    ChildrenSkipRun(s, pos, p, tag, pos, acc);
    assert RawIfAny(s, pos, p) == [cs[0]];
    AfterRawChildAt(s, p, pos, tag, cs[1..], acc);
    ConsAppend(acc, cs);
  }

  /** The children loop after pending raw text: the closing tag, or an element and more children. */
  lemma {:induction false} AfterRawChildAt(s: string, pos: nat, rawStart: nat, tag: string, cs: seq<Node>, acc: seq<Node>)
    requires rawStart <= pos && (cs == [] || cs[0].Element?)
    requires At(s, pos, DumpAll(cs) + Closing(tag)) && IsTagName(tag)
    requires WellFormed(cs) && QuoteFree(cs)
    ensures ParseChildren(s, pos, tag, rawStart, acc)
      == Ok(Step(acc + RawIfAny(s, rawStart, pos) + cs, pos + |DumpAll(cs)| + |tag| + 3))
    decreases NodesSize(cs), 4
  {
    if cs == [] {
      ChildrenEndAt(s, pos, rawStart, tag, acc);
      assert acc + RawIfAny(s, rawStart, pos) + cs == acc + RawIfAny(s, rawStart, pos);
    } else {
      ConsAt(s, pos, cs, Closing(tag));
      TailWellFormed(cs);
      ElementChildAt(s, pos, rawStart, tag, cs[0].el, cs[1..], acc);
      ConsAppend(acc + RawIfAny(s, rawStart, pos), cs);
    }
  }

  /** The children loop at a dumped child element, raw text pending from `rawStart`. */
  lemma {:induction false} ElementChildAt(s: string, pos: nat, rawStart: nat, tag: string, e: ElementNode, rest: seq<Node>, acc: seq<Node>)
    requires rawStart <= pos && IsTagName(tag)
    requires At(s, pos, DumpElement(e)) && WellFormedElement(e) && QuoteFreeElement(e)
    requires At(s, pos + |DumpElement(e)|, DumpAll(rest) + Closing(tag)) && WellFormed(rest) && QuoteFree(rest)
    ensures ParseChildren(s, pos, tag, rawStart, acc)
      == Ok(Step(acc + RawIfAny(s, rawStart, pos) + [Element(e)] + rest, pos + |DumpElement(e)| + |DumpAll(rest)| + |tag| + 3))
    decreases ElemSize(e) + NodesSize(rest), 3
  {
    ElementAt(s, pos, e);
    ElementStartAt(s, pos, e);
    ChildrenAt(s, pos + |DumpElement(e)|, tag, rest, acc + RawIfAny(s, rawStart, pos) + [Element(e)]);
    ChildrenAfterElement(s, pos, tag, rawStart, acc, e, pos + |DumpElement(e)|,
      Ok(Step(acc + RawIfAny(s, rawStart, pos) + [Element(e)] + rest, pos + |DumpElement(e)| + |DumpAll(rest)| + |tag| + 3)));
  }

  /** A dumped element starts with `<` and a name byte, so never with `</`. */
  lemma ElementStartAt(s: string, pos: nat, e: ElementNode)
    requires At(s, pos, DumpElement(e)) && IsTagName(e.tag)
    ensures pos < |s| && s[pos] == '<' && !AtCloseTag(s, pos)
  {
    AtIndex(s, pos, DumpElement(e), 0);
    AtIndex(s, pos, DumpElement(e), 1);
    assert DumpElement(e)[1] == e.tag[0];
  }

  /** A dumped node list running to the end of the input parses back to itself. */
  lemma {:induction false} NodesAt(s: string, pos: nat, ns: seq<Node>, acc: seq<Node>)
    requires At(s, pos, DumpAll(ns)) && pos + |DumpAll(ns)| == |s|
    requires WellFormed(ns) && QuoteFree(ns)
    ensures ParseNodes(s, pos, "", pos, acc) == Ok(acc + ns)
    decreases |ns|, 3
  {
    if ns == [] {
      assert acc + RawIfAny(s, pos, pos) == acc + ns;
    } else if ns[0].Raw? {
      RawNodeAt(s, pos, ns, acc);
    } else {
      ConsAtEnd(s, pos, ns);
      TailWellFormed(ns);
      ElementNodeAt(s, pos, pos, ns[0].el, ns[1..], acc);
      ConsAppend(acc + RawIfAny(s, pos, pos), ns);
      assert acc + RawIfAny(s, pos, pos) == acc;
    }
  }

  /** The node loop over dumped raw text, then the element after it or the end. */
  lemma {:induction false} RawNodeAt(s: string, pos: nat, ns: seq<Node>, acc: seq<Node>)
    requires ns != [] && ns[0].Raw?
    requires At(s, pos, DumpAll(ns)) && pos + |DumpAll(ns)| == |s|
    requires WellFormed(ns) && QuoteFree(ns)
    ensures ParseNodes(s, pos, "", pos, acc) == Ok(acc + ns)
    decreases |ns|, 2
  {
    var t := ns[0].text;
    var p := pos + |t|;
    ConsAtEnd(s, pos, ns);
    TailWellFormed(ns);
    TextAt(s, pos, t);
    AtSlice(s, pos, t);
    NodesSkipRun(s, pos, p, "", pos, acc);
    assert RawIfAny(s, pos, p) == [ns[0]];
    AfterRawNodeAt(s, p, pos, ns[1..], acc);
    ConsAppend(acc, ns);
  }

  /** The node loop after pending raw text: the end of the input, or an element and more nodes. */
  lemma {:induction false} AfterRawNodeAt(s: string, pos: nat, rawStart: nat, ns: seq<Node>, acc: seq<Node>)
    requires rawStart <= pos && (ns == [] || ns[0].Element?)
    requires At(s, pos, DumpAll(ns)) && pos + |DumpAll(ns)| == |s|
    requires WellFormed(ns) && QuoteFree(ns)
    ensures ParseNodes(s, pos, "", rawStart, acc) == Ok(acc + RawIfAny(s, rawStart, pos) + ns)
    decreases |ns|, 1
  {
    if ns == [] {
      assert acc + RawIfAny(s, rawStart, pos) + ns == acc + RawIfAny(s, rawStart, pos);
    } else {
      ConsAtEnd(s, pos, ns);
      TailWellFormed(ns);
      ElementNodeAt(s, pos, rawStart, ns[0].el, ns[1..], acc);
      ConsAppend(acc + RawIfAny(s, rawStart, pos), ns);
    }
  }

  /** The node loop at a dumped element, raw text pending from `rawStart`. */
  lemma {:induction false} ElementNodeAt(s: string, pos: nat, rawStart: nat, e: ElementNode, rest: seq<Node>, acc: seq<Node>)
    requires rawStart <= pos
    requires At(s, pos, DumpElement(e)) && WellFormedElement(e) && QuoteFreeElement(e)
    requires At(s, pos + |DumpElement(e)|, DumpAll(rest)) && pos + |DumpElement(e)| + |DumpAll(rest)| == |s|
    requires WellFormed(rest) && QuoteFree(rest)
    ensures ParseNodes(s, pos, "", rawStart, acc) == Ok(acc + RawIfAny(s, rawStart, pos) + [Element(e)] + rest)
    decreases |rest| + 1, 0
  {
    AtBound(s, pos, DumpElement(e));
    ElementAt(s, pos, e);
    ElementStartAt(s, pos, e);
    NodesAt(s, pos + |DumpElement(e)|, rest, acc + RawIfAny(s, rawStart, pos) + [Element(e)]);
    NodesAfterElement(s, pos, "", rawStart, acc, e, pos + |DumpElement(e)|, Ok(acc + RawIfAny(s, rawStart, pos) + [Element(e)] + rest));
  }

  /**
   * Dump then parse is the identity on the trees the parser builds, as
   * long as no attribute value holds `"`.
   */
  lemma DumpParses(t: seq<Node>)
    requires WellFormed(t) && QuoteFree(t)
    ensures Parse(DumpAll(t)) == Ok(t)
  {
    var s := DumpAll(t);
    AtSuffix(s, 0);
    assert s[0..] == s;
    NodesAt(s, 0, t, []);
    assert [] + t == t;
  }

  /** Parsing, dumping and parsing again gives the first parse back when no value holds `"`. */
  lemma ReparseDump(s: string, t: seq<Node>)
    requires Parse(s) == Ok(t) && QuoteFree(t)
    ensures Parse(DumpAll(t)) == Ok(t)
  {
    DumpParses(t);
  }

  /** The attributes `<a x="""/>` is read with: the value stops at the second quote and the third starts a new name. */
  lemma QuotedQuoteAttrs()
    ensures OpenName("<a x=\"\"\"/>", 0) == "a"
    ensures OpenAttrs("<a x=\"\"\"/>", 0) == Step([Attribute("x", ""), Attribute("\"", "")], 8)
  {
    var s := "<a x=\"\"\"/>";
    assert NameStart(s, 0) == 1 && TagNameEnd(s, 1) == 2;
    assert SkipWs(s, 2) == 3 && AttrNameEnd(s, 3) == 4 && SkipWs(s, 4) == 4 && SkipWs(s, 5) == 5;
    assert QuoteEnd(s, 6) == 6 && s[6..6] == "" && s[3..4] == "x";
    assert AttrValue(s, 5) == Step("", 7);
    assert ReadAttr(s, 3) == Step(Some(Attribute("x", "")), 7);
    assert !AtTagEnd(s, 3) && SkipWs(s, 7) == 7 && !AtTagEnd(s, 7);
    AttrLoopTakes(s, 2, []);
    assert [] + [Attribute("x", "")] == [Attribute("x", "")];
    assert AttrNameEnd(s, 7) == 8 && SkipWs(s, 8) == 8 && s[7..8] == "\"";
    assert ReadAttr(s, 7) == Step(Some(Attribute("\"", "")), 8);
    AttrLoopTakes(s, 7, [Attribute("x", "")]);
    assert [Attribute("x", "")] + [Attribute("\"", "")] == [Attribute("x", ""), Attribute("\"", "")];
    assert SkipWs(s, 8) == 8 && AtTagEnd(s, 8);
    AttrLoopStops(s, 8, [Attribute("x", ""), Attribute("\"", "")]);
    assert AttrLoop(s, 2, []) == AttrLoop(s, 7, [Attribute("x", "")]);
    assert AttrLoop(s, 7, [Attribute("x", "")]) == AttrLoop(s, 8, [Attribute("x", ""), Attribute("\"", "")]);
  }

  /** The dump of `a` with the value `"`. */
  lemma QuoteInValueDump()
    ensures DumpAll([Element(ElementNode("a", [Attribute("x", "\"")], [], true, 0))]) == "<a x=\"\"\"/>"
  {
    var e := ElementNode("a", [Attribute("x", "\"")], [], true, 0);
    var attrs := [Attribute("x", "\"")];
    assert attrs[1..] == [];
    assert DumpAttrs(attrs) == DumpAttr(Attribute("x", "\"")) + "";
    assert DumpAttrs(attrs) == " x=\"\"\"";
    assert DumpElement(e) == "<a x=\"\"\"/>";
    var ns := [Element(e)];
    assert ns[1..] == [];
    assert DumpAll(ns) == DumpNode(ns[0]) + DumpAll([]);
  }

  /** `<a x="""/>` parses as a self-closing `a` with two attributes. */
  lemma QuotedQuoteParse()
    ensures Parse("<a x=\"\"\"/>") == Ok([Element(ElementNode("a", [Attribute("x", ""), Attribute("\"", "")], [], true, 0))])
  {
    var s := "<a x=\"\"\"/>";
    QuotedQuoteAttrs();
    ElementSelfClosing(s, 0);
    var e2 := ElementNode("a", [Attribute("x", ""), Attribute("\"", "")], [], true, 0);
    NodesElement(s, 0, "", 0, []);
    assert [] + RawIfAny(s, 0, 0) + [Element(e2)] == [Element(e2)];
    assert ParseNodes(s, 10, "", 10, [Element(e2)]) == Ok([Element(e2)] + RawIfAny(s, 10, 10));
    assert [Element(e2)] + RawIfAny(s, 10, 10) == [Element(e2)];
  }

  /** A value holding `"` does not survive the round trip: `x` comes back empty, beside a new attribute. */
  lemma QuoteInValueBreaksRoundTrip()
    ensures var e := ElementNode("a", [Attribute("x", "\"")], [], true, 0);
      WellFormed([Element(e)]) && Parse(DumpAll([Element(e)])) != Ok([Element(e)])
  {
    var e := ElementNode("a", [Attribute("x", "\"")], [], true, 0);
    QuoteInValueDump();
    QuotedQuoteParse();
    assert IsTagName("a") && IsAttrName("x");
    assert NoRawPair([Element(e)]);
  }
}
