/**
 * The cursor semantics of the recursive-descent parser in
 * internal/html/parser.go, written as functions of the input text and a
 * byte position. Each function returns what the corresponding Parser
 * method returns together with the position the cursor is left at; the
 * class in module HtmlParser is proved to compute exactly these.
 */
module HtmlParserSpec {
  import opened Wrappers
  import opened Html
  import Text

  /** The bytes skipWhitespace skips and parseAttrName stops at. */
  predicate IsSpace(c: char) {
    c == ' ' || c == '\n' || c == '\r' || c == '\t'
  }

  /** unicode.IsLetter of a byte widened to a rune: ASCII letters and the Latin-1 letters. */
  predicate IsLetterByte(c: char) {
    ('a' <= c <= 'z') || ('A' <= c <= 'Z') || c as int == 0xAA || c as int == 0xB5 || c as int == 0xBA
    || (0xC0 <= c as int <= 0xD6) || (0xD8 <= c as int <= 0xF6) || (0xF8 <= c as int <= 0xFF)
  }

  /** The bytes parseTagName accepts: letters, digits, '-' and ':'. */
  predicate IsNameByte(c: char) {
    IsLetterByte(c) || ('0' <= c <= '9') || c == '-' || c == ':'
  }

  /** The bytes that end an attribute name. */
  predicate IsAttrNameStop(c: char) {
    IsSpace(c) || c == '=' || c == '>' || c == '/'
  }

  /** A parse error, with the cursor position the message reports. */
  datatype ParseError =
    | ExpectedLt(pos: nat)
    | EmptyTagName(pos: nat)
    | ExpectedGtAfterSlash(pos: nat)
    | ExpectedGt(pos: nat)
    | ExpectedGtForClosingTag(pos: nat)

  /** The words of an error's text, before its position. */
  function Cause(e: ParseError): string {
    match e
    case ExpectedLt(_) => "expected '<' at pos "
    case EmptyTagName(_) => "empty tag name at pos "
    case ExpectedGtAfterSlash(_) => "expected '>' after '/' at pos "
    case ExpectedGt(_) => "expected '>' at pos "
    case ExpectedGtForClosingTag(_) => "expected '>' for closing tag at pos "
  }

  /** The text of the error the parser returns: its cause, then its position in decimal. */
  function Message(e: ParseError): (m: string)
    ensures |m| > |Cause(e)| && m[..|Cause(e)|] == Cause(e)
    ensures Text.NumeralValue(m[|Cause(e)|..]) == e.pos
  {
    Text.IntToStringValue(e.pos);
    Cause(e) + Text.IntToString(e.pos)
  }

  function Kind(e: ParseError): nat {
    match e
    case ExpectedLt(_) => 0
    case EmptyTagName(_) => 1
    case ExpectedGtAfterSlash(_) => 2
    case ExpectedGt(_) => 3
    case ExpectedGtForClosingTag(_) => 4
  }

  /** Which cause a text names, told apart by its 2nd, 11th, 14th and 15th bytes. */
  function KindInText(m: string): nat {
    if |m| < 15 then 5
    else if m[1] == 'm' then 1
    else if m[10] == '<' then 0
    else if m[13] == 'f' then 4
    else if m[14] == 'f' then 2
    else 3
  }

  /** The cause can be read back from an error's text. */
  lemma KindRead(e: ParseError)
    ensures KindInText(Message(e)) == Kind(e)
  {
    var c := Cause(e);
    KindOfCause(e);
    KindInPrefix(c, Text.IntToString(e.pos));
  }

  lemma KindOfCause(e: ParseError)
    ensures |Cause(e)| >= 15 && KindInText(Cause(e)) == Kind(e)
  {
    match e
    case ExpectedLt(_) =>
      var c := "expected '<' at pos ";
      assert c[1] == 'x' && c[10] == '<';
    case EmptyTagName(_) =>
      var c := "empty tag name at pos ";
      assert c[1] == 'm';
    case ExpectedGtAfterSlash(_) =>
      var c := "expected '>' after '/' at pos ";
      assert c[1] == 'x' && c[10] == '>' && c[13] == 'a' && c[14] == 'f';
    case ExpectedGt(_) =>
      var c := "expected '>' at pos ";
      assert c[1] == 'x' && c[10] == '>' && c[13] == 'a' && c[14] == 't';
    case ExpectedGtForClosingTag(_) =>
      var c := "expected '>' for closing tag at pos ";
      assert c[1] == 'x' && c[10] == '>' && c[13] == 'f';
  }

  /** Text after the first 15 bytes does not change the cause read. */
  lemma KindInPrefix(c: string, x: string)
    requires |c| >= 15
    ensures KindInText(c + x) == KindInText(c)
  {
    var m := c + x;
    assert m[1] == c[1] && m[10] == c[10] && m[13] == c[13] && m[14] == c[14];
  }

  /** Two errors have the same text exactly when they are the same error. */
  lemma MessageIdentifies(e1: ParseError, e2: ParseError)
    ensures Message(e1) == Message(e2) <==> e1 == e2
  {
    if Message(e1) == Message(e2) {
      KindRead(e1);
      KindRead(e2);
      assert Cause(e1) == Cause(e2);
    }
  }

  /** A value read from the input and the position just after it. */
  datatype Step<T> = Step(value: T, pos: nat)

  /** Drops the final position of a successful parse. */
  function ValueOf<T>(r: Result<Step<T>, ParseError>): Result<T, ParseError> {
    match r
    case Ok(st) => Ok(st.value)
    case Err(e) => Err(e)
  }

  /** current(): the byte under the cursor, or byte 0 at the end. */
  function Current(s: string, pos: nat): char {
    if pos < |s| then s[pos] else 0 as char
  }

  /** peek(n): the next n bytes, or what remains. */
  function Peek(s: string, pos: nat, n: nat): (r: string)
    requires pos <= |s|
    ensures |r| <= n && r <= s[pos..]
    ensures pos + n <= |s| ==> |r| == n
  {
    if pos + n > |s| then s[pos..] else s[pos..pos + n]
  }

  /** The cursor is on `</`. */
  predicate AtCloseTag(s: string, pos: nat) {
    pos + 1 < |s| && s[pos] == '<' && s[pos + 1] == '/'
  }

  lemma PeekCloseTag(s: string, pos: nat)
    requires pos <= |s|
    ensures (Current(s, pos) == '<' && Peek(s, pos, 2) == "</") <==> AtCloseTag(s, pos)
  {
    if AtCloseTag(s, pos) {
      assert Peek(s, pos, 2) == [s[pos], s[pos + 1]];
    }
  }

  /** skipWhitespace: the first position at or after `pos` that is not a space. */
  function SkipWs(s: string, pos: nat): (r: nat)
    requires pos <= |s|
    ensures pos <= r <= |s|
    decreases |s| - pos
  {
    if pos < |s| && IsSpace(s[pos]) then SkipWs(s, pos + 1) else pos
  }
  /** The bytes SkipWs passes over are spaces, and it stops at a non-space or the end. */
  lemma {:induction false} SkipWsSpec(s: string, pos: nat)
    requires pos <= |s|
    ensures forall k :: pos <= k < SkipWs(s, pos) ==> IsSpace(s[k])
    ensures SkipWs(s, pos) == |s| || !IsSpace(s[SkipWs(s, pos)])
    decreases |s| - pos
  {
    if pos < |s| && IsSpace(s[pos]) {
      SkipWsSpec(s, pos + 1);
    }
  }


  /** parseTagName: the end of the run of name bytes starting at `pos`. */
  function TagNameEnd(s: string, pos: nat): (r: nat)
    requires pos <= |s|
    ensures pos <= r <= |s|
    decreases |s| - pos
  {
    if pos < |s| && IsNameByte(s[pos]) then TagNameEnd(s, pos + 1) else pos
  }
  /** TagNameEnd passes over name bytes only and stops at a non-name byte or the end. */
  lemma {:induction false} TagNameEndSpec(s: string, pos: nat)
    requires pos <= |s|
    ensures forall k :: pos <= k < TagNameEnd(s, pos) ==> IsNameByte(s[k])
    ensures TagNameEnd(s, pos) == |s| || !IsNameByte(s[TagNameEnd(s, pos)])
    decreases |s| - pos
  {
    if pos < |s| && IsNameByte(s[pos]) {
      TagNameEndSpec(s, pos + 1);
    }
  }


  /** parseAttrName: the end of the run of bytes that are not an attribute-name stop. */
  function AttrNameEnd(s: string, pos: nat): (r: nat)
    requires pos <= |s|
    ensures pos <= r <= |s|
    decreases |s| - pos
  {
    if pos < |s| && !IsAttrNameStop(s[pos]) then AttrNameEnd(s, pos + 1) else pos
  }
  /** AttrNameEnd stops at the first attribute-name stop or the end. */
  lemma {:induction false} AttrNameEndSpec(s: string, pos: nat)
    requires pos <= |s|
    ensures forall k :: pos <= k < AttrNameEnd(s, pos) ==> !IsAttrNameStop(s[k])
    ensures AttrNameEnd(s, pos) == |s| || IsAttrNameStop(s[AttrNameEnd(s, pos)])
    decreases |s| - pos
  {
    if pos < |s| && !IsAttrNameStop(s[pos]) {
      AttrNameEndSpec(s, pos + 1);
    }
  }


  /** The first `"` at or after `pos`, or the end of the input. */
  function QuoteEnd(s: string, pos: nat): (r: nat)
    requires pos <= |s|
    ensures pos <= r <= |s|
    decreases |s| - pos
  {
    if pos < |s| && s[pos] != '"' then QuoteEnd(s, pos + 1) else pos
  }
  /** QuoteEnd stops at the first quote or the end. */
  lemma {:induction false} QuoteEndSpec(s: string, pos: nat)
    requires pos <= |s|
    ensures forall k :: pos <= k < QuoteEnd(s, pos) ==> s[k] != '"'
    ensures QuoteEnd(s, pos) == |s| || s[QuoteEnd(s, pos)] == '"'
    decreases |s| - pos
  {
    if pos < |s| && s[pos] != '"' {
      QuoteEndSpec(s, pos + 1);
    }
  }


  /** The first space or `>` at or after `pos`, or the end of the input. */
  function UnquotedEnd(s: string, pos: nat): (r: nat)
    requires pos <= |s|
    ensures pos <= r <= |s|
    decreases |s| - pos
  {
    if pos < |s| && s[pos] != ' ' && s[pos] != '>' then UnquotedEnd(s, pos + 1) else pos
  }
  /** UnquotedEnd stops at the first space or `>`, or the end. */
  lemma {:induction false} UnquotedEndSpec(s: string, pos: nat)
    requires pos <= |s|
    ensures forall k :: pos <= k < UnquotedEnd(s, pos) ==> s[k] != ' ' && s[k] != '>'
    ensures UnquotedEnd(s, pos) == |s| || s[UnquotedEnd(s, pos)] == ' ' || s[UnquotedEnd(s, pos)] == '>'
    decreases |s| - pos
  {
    if pos < |s| && s[pos] != ' ' && s[pos] != '>' {
      UnquotedEndSpec(s, pos + 1);
    }
  }


  /**
   * parseAttrValue: a quoted value runs to the next `"` (which is skipped
   * when present); an unquoted one stops only at a space or `>`.
   */
  function AttrValue(s: string, pos: nat): (r: Step<string>)
    requires pos <= |s|
    ensures pos <= r.pos <= |s|
  {
    if Current(s, pos) == '"' then
      var e := QuoteEnd(s, pos + 1);
      Step(s[pos + 1..e], if e < |s| then e + 1 else e)
    else
      var e := UnquotedEnd(s, pos);
      Step(s[pos..e], e)
  }

  /** The cursor is on `>` or on `/>`, which ends an attribute list. */
  predicate AtTagEnd(s: string, pos: nat)
    requires pos <= |s|
  {
    Current(s, pos) == '>' || (Current(s, pos) == '/' && Peek(s, pos, 2) == "/>")
  }

  /**
   * One attribute of the attribute loop, read at `pos`: a name, then
   * optionally `=` and a value (an attribute without `=` has the empty
   * value). An empty name reads nothing and leaves the cursor in place.
   */
  function ReadAttr(s: string, pos: nat): (r: Step<Option<Attribute>>)
    requires pos <= |s|
    ensures r.value.None? ==> r.pos == pos
    ensures r.value.Some? ==> pos < r.pos <= |s|
  {
    var p2 := AttrNameEnd(s, pos);
    if p2 == pos then Step(None, pos)
    else
      var p3 := SkipWs(s, p2);
      if Current(s, p3) == '=' then
        var v := AttrValue(s, SkipWs(s, p3 + 1));
        Step(Some(Attribute(s[pos..p2], v.value)), v.pos)
      else Step(Some(Attribute(s[pos..p2], "")), p3)
  }

  /**
   * The attribute loop of parseElement, from `pos` with the attributes
   * `acc` already read: each round skips white space, stops at `>`, `/>`
   * or an empty name, and otherwise reads one attribute.
   */
  function AttrLoop(s: string, pos: nat, acc: seq<Attribute>): (r: Step<seq<Attribute>>)
    requires pos <= |s|
    ensures pos <= r.pos <= |s|
    decreases |s| - pos
  {
    if pos >= |s| then Step(acc, pos)
    else
      var p1 := SkipWs(s, pos);
      if AtTagEnd(s, p1) then Step(acc, p1)
      else
        var a := ReadAttr(s, p1);
        if a.value.None? then Step(acc, p1)
        else AttrLoop(s, a.pos, acc + [a.value.value])
  }

  /** The attribute loop ends at `>`, at `/>` or at an empty name. */
  lemma AttrLoopStops(s: string, pos: nat, acc: seq<Attribute>)
    requires pos < |s|
    requires AtTagEnd(s, SkipWs(s, pos)) || ReadAttr(s, SkipWs(s, pos)).value.None?
    ensures AttrLoop(s, pos, acc) == Step(acc, SkipWs(s, pos))
  {
  }

  /** One round of the attribute loop that reads an attribute. */
  lemma AttrLoopTakes(s: string, pos: nat, acc: seq<Attribute>)
    requires pos < |s|
    requires !AtTagEnd(s, SkipWs(s, pos)) && ReadAttr(s, SkipWs(s, pos)).value.Some?
    ensures
      var a := ReadAttr(s, SkipWs(s, pos));
      AttrLoop(s, pos, acc) == AttrLoop(s, a.pos, acc + [a.value.value])
  {
  }

  /** The raw text between `from` and `to`, when there is any. */
  function RawIfAny(s: string, from: nat, to: nat): (r: seq<Node>)
    requires from <= to <= |s|
    ensures |r| <= 1
    ensures r != [] <==> from < to
    ensures forall n :: n in r ==> n.Raw? && n.text == s[from..to] && n.text != ""
  {
    if from < to then [Raw(s[from..to])] else []
  }

  /** Where the name of a closing tag starts, given the cursor on `</`. */
  function CloseNameStart(s: string, pos: nat): (r: nat)
    requires AtCloseTag(s, pos)
    ensures pos + 2 <= r <= |s|
  {
    SkipWs(s, pos + 2)
  }

  /** Where the `>` of a closing tag must be, given the cursor on `</`. */
  function CloseGtPos(s: string, pos: nat): (r: nat)
    requires AtCloseTag(s, pos)
    ensures pos + 2 <= r <= |s|
  {
    SkipWs(s, TagNameEnd(s, CloseNameStart(s, pos)))
  }

  /** The name of the closing tag under the cursor. */
  function CloseName(s: string, pos: nat): string
    requires AtCloseTag(s, pos)
  {
    s[CloseNameStart(s, pos)..TagNameEnd(s, CloseNameStart(s, pos))]
  }

  /** Where the tag name of the element opened at `pos` starts. */
  function NameStart(s: string, pos: nat): nat
    requires pos < |s|
  {
    SkipWs(s, pos + 1)
  }

  /** The tag name of the element opened at `pos`. */
  function OpenName(s: string, pos: nat): string
    requires pos < |s|
  {
    s[NameStart(s, pos)..TagNameEnd(s, NameStart(s, pos))]
  }

  /** The attributes of the element opened at `pos`, and where they end. */
  function OpenAttrs(s: string, pos: nat): (r: Step<seq<Attribute>>)
    requires pos < |s|
    ensures pos < r.pos <= |s|
  {
    AttrLoop(s, TagNameEnd(s, NameStart(s, pos)), [])
  }

  /**
   * parseElement, with the cursor at `pos`. On success the cursor has
   * moved past the element and stays inside the input.
   */
  function ParseElement(s: string, pos: nat): (r: Result<Step<ElementNode>, ParseError>)
    requires pos <= |s|
    ensures r.Ok? ==> pos < r.value.pos <= |s|
    decreases |s| - pos, 0
  {
    if Current(s, pos) != '<' then Err(ExpectedLt(pos))
    else if OpenName(s, pos) == "" then Err(EmptyTagName(NameStart(s, pos)))
    else
      var name := OpenName(s, pos);
      var attrs := OpenAttrs(s, pos);
      var q := attrs.pos;
      if Current(s, q) == '/' then
        if Current(s, q + 1) != '>' then Err(ExpectedGtAfterSlash(q + 1))
        else Ok(Step(ElementNode(name, attrs.value, [], true, 0), q + 2))
      else if Current(s, q) == '>' then
        match ParseChildren(s, q + 1, name, q + 1, [])
        case Err(e) => Err(e)
        case Ok(cs) => Ok(Step(ElementNode(name, attrs.value, cs.value, false, 0), cs.pos))
      else Err(ExpectedGt(q))
  }

  /** An opening tag ending in `/>` is a self-closing element without children. */
  lemma ElementSelfClosing(s: string, pos: nat)
    requires pos < |s| && s[pos] == '<' && OpenName(s, pos) != ""
    requires var q := OpenAttrs(s, pos).pos; q + 1 < |s| && s[q] == '/' && s[q + 1] == '>'
    ensures ParseElement(s, pos)
      == Ok(Step(ElementNode(OpenName(s, pos), OpenAttrs(s, pos).value, [], true, 0), OpenAttrs(s, pos).pos + 2))
  {
  }

  /** An opening tag ending in `>`, then children read up to the closing tag, is an element with them. */
  lemma ElementWithChildren(s: string, pos: nat, cs: seq<Node>, end: nat)
    requires pos < |s| && s[pos] == '<' && OpenName(s, pos) != ""
    requires var q := OpenAttrs(s, pos).pos; q < |s| && s[q] == '>'
    requires ParseChildren(s, OpenAttrs(s, pos).pos + 1, OpenName(s, pos), OpenAttrs(s, pos).pos + 1, []) == Ok(Step(cs, end))
    ensures ParseElement(s, pos) == Ok(Step(ElementNode(OpenName(s, pos), OpenAttrs(s, pos).value, cs, false, 0), end))
  {
  }

  /**
   * The loop of parseElementChildren for the element `tag`, with the
   * cursor at `pos`, raw text pending from `rawStart` and the children
   * `acc` already read. At the end of the input the children read so far
   * are returned and the pending raw text is dropped.
   */
  function ParseChildren(s: string, pos: nat, tag: string, rawStart: nat, acc: seq<Node>): (r: Result<Step<seq<Node>>, ParseError>)
    requires rawStart <= pos <= |s|
    ensures r.Ok? ==> pos <= r.value.pos <= |s|
    decreases |s| - pos, 1
  {
    if pos >= |s| then Ok(Step(acc, pos))
    else if AtCloseTag(s, pos) && Current(s, CloseGtPos(s, pos)) != '>' then
      Err(ExpectedGtForClosingTag(CloseGtPos(s, pos)))
    else if AtCloseTag(s, pos) && CloseName(s, pos) == tag then
      Ok(Step(acc + RawIfAny(s, rawStart, pos), CloseGtPos(s, pos) + 1))
    else if s[pos] == '<' then
      match ParseElement(s, pos)
      case Err(e) => Err(e)
      case Ok(el) => ParseChildren(s, el.pos, tag, el.pos, acc + RawIfAny(s, rawStart, pos) + [Element(el.value)])
    else ParseChildren(s, pos + 1, tag, rawStart, acc)
  }

  /** A closing tag whose name is not followed by `>` is an error. */
  lemma ChildrenBadClose(s: string, pos: nat, tag: string, rawStart: nat, acc: seq<Node>)
    requires rawStart <= pos < |s| && AtCloseTag(s, pos) && Current(s, CloseGtPos(s, pos)) != '>'
    ensures ParseChildren(s, pos, tag, rawStart, acc) == Err(ExpectedGtForClosingTag(CloseGtPos(s, pos)))
  {
  }

  /** The matching closing tag ends the children, keeping the pending raw text. */
  lemma ChildrenClosed(s: string, pos: nat, tag: string, rawStart: nat, acc: seq<Node>)
    requires rawStart <= pos < |s| && AtCloseTag(s, pos)
    requires Current(s, CloseGtPos(s, pos)) == '>' && CloseName(s, pos) == tag
    ensures ParseChildren(s, pos, tag, rawStart, acc) == Ok(Step(acc + RawIfAny(s, rawStart, pos), CloseGtPos(s, pos) + 1))
  {
  }

  /** Any other `<` starts a child element, after the pending raw text. */
  lemma ChildrenElement(s: string, pos: nat, tag: string, rawStart: nat, acc: seq<Node>)
    requires rawStart <= pos < |s| && s[pos] == '<'
    requires AtCloseTag(s, pos) ==> Current(s, CloseGtPos(s, pos)) == '>' && CloseName(s, pos) != tag
    ensures ParseElement(s, pos).Err? ==> ParseChildren(s, pos, tag, rawStart, acc) == Err(ParseElement(s, pos).error)
    ensures ParseElement(s, pos).Ok? ==>
      var el := ParseElement(s, pos).value;
      ParseChildren(s, pos, tag, rawStart, acc) == ParseChildren(s, el.pos, tag, el.pos, acc + RawIfAny(s, rawStart, pos) + [Element(el.value)])
  {
  }

  /** A child element read up to `p`, then the rest of the children read from `p` to the result `r`. */
  lemma ChildrenAfterElement(s: string, pos: nat, tag: string, rawStart: nat, acc: seq<Node>, e: ElementNode, p: nat, r: Result<Step<seq<Node>>, ParseError>)
    requires rawStart <= pos < |s| && s[pos] == '<' && !AtCloseTag(s, pos) && p <= |s|
    requires ParseElement(s, pos) == Ok(Step(e, p))
    requires ParseChildren(s, p, tag, p, acc + RawIfAny(s, rawStart, pos) + [Element(e)]) == r
    ensures ParseChildren(s, pos, tag, rawStart, acc) == r
  {
  }

  /** Any other byte is raw text. */
  lemma ChildrenSkip(s: string, pos: nat, tag: string, rawStart: nat, acc: seq<Node>)
    requires rawStart <= pos < |s| && s[pos] != '<'
    ensures ParseChildren(s, pos, tag, rawStart, acc) == ParseChildren(s, pos + 1, tag, rawStart, acc)
  {
  }

  /**
   * The loop of parseNodes with stop tag `stopTag`: like ParseChildren,
   * but at the end of the input (or before `</stopTag`) the pending raw
   * text is kept.
   */
  function ParseNodes(s: string, pos: nat, stopTag: string, rawStart: nat, acc: seq<Node>): (r: Result<seq<Node>, ParseError>)
    requires rawStart <= pos <= |s|
    decreases |s| - pos
  {
    if pos >= |s| then Ok(acc + RawIfAny(s, rawStart, pos))
    else if AtCloseTag(s, pos) && stopTag != "" && CloseName(s, pos) == stopTag then
      Ok(acc + RawIfAny(s, rawStart, pos))
    else if s[pos] == '<' then
      match ParseElement(s, pos)
      case Err(e) => Err(e)
      case Ok(el) => ParseNodes(s, el.pos, stopTag, el.pos, acc + RawIfAny(s, rawStart, pos) + [Element(el.value)])
    else ParseNodes(s, pos + 1, stopTag, rawStart, acc)
  }

  /** Before `</stopTag` the node list ends, keeping the pending raw text. */
  lemma NodesStopped(s: string, pos: nat, stopTag: string, rawStart: nat, acc: seq<Node>)
    requires rawStart <= pos < |s| && AtCloseTag(s, pos) && stopTag != "" && CloseName(s, pos) == stopTag
    ensures ParseNodes(s, pos, stopTag, rawStart, acc) == Ok(acc + RawIfAny(s, rawStart, pos))
  {
  }

  /** Any other `<` starts an element, after the pending raw text. */
  lemma NodesElement(s: string, pos: nat, stopTag: string, rawStart: nat, acc: seq<Node>)
    requires rawStart <= pos < |s| && s[pos] == '<'
    requires AtCloseTag(s, pos) ==> stopTag == "" || CloseName(s, pos) != stopTag
    ensures ParseElement(s, pos).Err? ==> ParseNodes(s, pos, stopTag, rawStart, acc) == Err(ParseElement(s, pos).error)
    ensures ParseElement(s, pos).Ok? ==>
      var el := ParseElement(s, pos).value;
      ParseNodes(s, pos, stopTag, rawStart, acc) == ParseNodes(s, el.pos, stopTag, el.pos, acc + RawIfAny(s, rawStart, pos) + [Element(el.value)])
  {
  }

  /** An element read up to `p`, then the rest of the nodes read from `p` to the result `r`. */
  lemma NodesAfterElement(s: string, pos: nat, stopTag: string, rawStart: nat, acc: seq<Node>, e: ElementNode, p: nat, r: Result<seq<Node>, ParseError>)
    requires rawStart <= pos < |s| && s[pos] == '<' && !AtCloseTag(s, pos) && p <= |s|
    requires ParseElement(s, pos) == Ok(Step(e, p))
    requires ParseNodes(s, p, stopTag, p, acc + RawIfAny(s, rawStart, pos) + [Element(e)]) == r
    ensures ParseNodes(s, pos, stopTag, rawStart, acc) == r
  {
  }

  /** Any other byte is raw text. */
  lemma NodesSkip(s: string, pos: nat, stopTag: string, rawStart: nat, acc: seq<Node>)
    requires rawStart <= pos < |s| && s[pos] != '<'
    ensures ParseNodes(s, pos, stopTag, rawStart, acc) == ParseNodes(s, pos + 1, stopTag, rawStart, acc)
  {
  }

  // ------------------------------------------------- well-formed trees

  /** Raw text as the parser cuts it: every `<` starts a tag, so none is left in raw text. */
  predicate NoLt(t: string) {
    forall i :: 0 <= i < |t| ==> t[i] != '<'
  }

  /** A tag name parseTagName reads: a non-empty run of name bytes. */
  predicate IsTagName(t: string) {
    t != "" && forall i :: 0 <= i < |t| ==> IsNameByte(t[i])
  }

  /** An attribute name parseAttrName reads: non-empty, without a name stop. */
  predicate IsAttrName(k: string) {
    k != "" && forall i :: 0 <= i < |k| ==> !IsAttrNameStop(k[i])
  }

  predicate WellFormedNode(n: Node)
    decreases n
  {
    match n
    case Raw(t) => t != "" && NoLt(t)
    case Element(e) => WellFormedElement(e)
  }

  /**
   * An element as parseElement builds it: a tag name, readable attribute
   * names, line 0, no children when self-closing, well-formed children.
   */
  predicate WellFormedElement(e: ElementNode)
    decreases e
  {
    IsTagName(e.tag)
    && (forall i :: 0 <= i < |e.attributes| ==> IsAttrName(e.attributes[i].key))
    && e.line == 0
    && (e.selfClosing ==> e.children == [])
    && WellFormed(e.children)
  }

  /** A node list as the parser builds it: well-formed nodes, never two raw texts in a row. */
  predicate WellFormed(ns: seq<Node>)
    decreases ns
  {
    (forall i :: 0 <= i < |ns| ==> WellFormedNode(ns[i])) && NoRawPair(ns)
  }

  /** No two raw texts follow each other in `ns`. */
  predicate NoRawPair(ns: seq<Node>)
    decreases |ns|
  {
    |ns| < 2 || (!(ns[0].Raw? && ns[1].Raw?) && NoRawPair(ns[1..]))
  }

  /** Two lists without a raw pair, not raw at the seam, make one without a raw pair. */
  lemma {:induction false} NoRawPairAppend(a: seq<Node>, b: seq<Node>)
    requires NoRawPair(a) && NoRawPair(b)
    requires a != [] && b != [] ==> !(a[|a| - 1].Raw? && b[0].Raw?)
    ensures NoRawPair(a + b)
    decreases |a|
  {
    if a == [] {
      assert a + b == b;
    } else {
      assert (a + b)[1..] == a[1..] + b;
      NoRawPairAppend(a[1..], b);
    }
  }

  /** A node list the parser is still building: well-formed and not ending in raw text. */
  predicate Open(acc: seq<Node>) {
    WellFormed(acc) && (acc == [] || acc[|acc| - 1].Element?)
  }

  /** Appending the pending raw text (free of `<`) and then an element keeps the list open. */
  lemma AppendElement(s: string, from: nat, to: nat, acc: seq<Node>, e: ElementNode)
    requires from <= to <= |s| && Open(acc) && NoLt(s[from..to]) && WellFormedElement(e)
    ensures Open(acc + RawIfAny(s, from, to) + [Element(e)])
  {
    var r := acc + RawIfAny(s, from, to) + [Element(e)];
    NoRawPairAppend(acc, RawIfAny(s, from, to));
    NoRawPairAppend(acc + RawIfAny(s, from, to), [Element(e)]);
    forall i | 0 <= i < |r|
      ensures WellFormedNode(r[i])
    {
      if i < |acc| {
        assert r[i] == acc[i];
      }
    }
  }

  /** Appending the pending raw text (free of `<`) ends a well-formed list. */
  lemma AppendRawText(s: string, from: nat, to: nat, acc: seq<Node>)
    requires from <= to <= |s| && Open(acc) && NoLt(s[from..to])
    ensures WellFormed(acc + RawIfAny(s, from, to))
  {
    var r := acc + RawIfAny(s, from, to);
    NoRawPairAppend(acc, RawIfAny(s, from, to));
    forall i | 0 <= i < |r|
      ensures WellFormedNode(r[i])
    {
      if i < |acc| {
        assert r[i] == acc[i];
      }
    }
  }

  /** One more byte that is not `<` keeps the pending raw text free of `<`. */
  lemma NoLtExtend(s: string, from: nat, to: nat)
    requires from <= to < |s| && NoLt(s[from..to]) && s[to] != '<'
    ensures NoLt(s[from..to + 1])
  {
    assert s[from..to + 1] == s[from..to] + [s[to]];
  }

  /** Every attribute the attribute loop reads has a readable name. */
  lemma {:induction false} AttrLoopNames(s: string, pos: nat, acc: seq<Attribute>)
    requires pos <= |s|
    requires forall i :: 0 <= i < |acc| ==> IsAttrName(acc[i].key)
    ensures forall i :: 0 <= i < |AttrLoop(s, pos, acc).value| ==> IsAttrName(AttrLoop(s, pos, acc).value[i].key)
    decreases |s| - pos
  {
    if pos < |s| {
      var p1 := SkipWs(s, pos);
      if !AtTagEnd(s, p1) {
        var a := ReadAttr(s, p1);
        if a.value.Some? {
          AttrNameEndSpec(s, p1);
          var acc' := acc + [a.value.value];
          assert forall i :: 0 <= i < |acc'| ==> IsAttrName(acc'[i].key) by {
            assert acc'[|acc|].key == s[p1..AttrNameEnd(s, p1)];
          }
          AttrLoopNames(s, a.pos, acc');
          AttrLoopTakes(s, pos, acc);
        }
      }
    }
  }

  /** parseElement builds a well-formed element. */
  lemma {:induction false} ElementWellFormed(s: string, pos: nat)
    requires pos <= |s|
    ensures ParseElement(s, pos).Ok? ==> WellFormedElement(ParseElement(s, pos).value.value)
    decreases |s| - pos, 0
  {
    if Current(s, pos) == '<' && OpenName(s, pos) != "" {
      TagNameEndSpec(s, NameStart(s, pos));
      AttrLoopNames(s, TagNameEnd(s, NameStart(s, pos)), []);
      var q := OpenAttrs(s, pos).pos;
      if Current(s, q) != '/' && Current(s, q) == '>' {
        ChildrenWellFormed(s, q + 1, OpenName(s, pos), q + 1, []);
      }
    }
  }

  /** The children loop, started with an open list and `<`-free pending text, builds a well-formed list. */
  lemma {:induction false} ChildrenWellFormed(s: string, pos: nat, tag: string, rawStart: nat, acc: seq<Node>)
    requires rawStart <= pos <= |s| && Open(acc) && NoLt(s[rawStart..pos])
    ensures ParseChildren(s, pos, tag, rawStart, acc).Ok? ==> WellFormed(ParseChildren(s, pos, tag, rawStart, acc).value.value)
    decreases |s| - pos, 1
  {
    if pos >= |s| {
    } else if AtCloseTag(s, pos) && Current(s, CloseGtPos(s, pos)) != '>' {
    } else if AtCloseTag(s, pos) && CloseName(s, pos) == tag {
      AppendRawText(s, rawStart, pos, acc);
    } else if s[pos] == '<' {
      ElementWellFormed(s, pos);
      if ParseElement(s, pos).Ok? {
        var el := ParseElement(s, pos).value;
        AppendElement(s, rawStart, pos, acc, el.value);
        ChildrenWellFormed(s, el.pos, tag, el.pos, acc + RawIfAny(s, rawStart, pos) + [Element(el.value)]);
      }
    } else {
      NoLtExtend(s, rawStart, pos);
      ChildrenWellFormed(s, pos + 1, tag, rawStart, acc);
    }
  }

  /** The node loop, started with an open list and `<`-free pending text, builds a well-formed list. */
  lemma {:induction false} NodesWellFormed(s: string, pos: nat, stopTag: string, rawStart: nat, acc: seq<Node>)
    requires rawStart <= pos <= |s| && Open(acc) && NoLt(s[rawStart..pos])
    ensures ParseNodes(s, pos, stopTag, rawStart, acc).Ok? ==> WellFormed(ParseNodes(s, pos, stopTag, rawStart, acc).value)
    decreases |s| - pos
  {
    if pos >= |s| || (AtCloseTag(s, pos) && stopTag != "" && CloseName(s, pos) == stopTag) {
      AppendRawText(s, rawStart, pos, acc);
    } else if s[pos] == '<' {
      ElementWellFormed(s, pos);
      if ParseElement(s, pos).Ok? {
        var el := ParseElement(s, pos).value;
        AppendElement(s, rawStart, pos, acc, el.value);
        NodesWellFormed(s, el.pos, stopTag, el.pos, acc + RawIfAny(s, rawStart, pos) + [Element(el.value)]);
      }
    } else {
      NoLtExtend(s, rawStart, pos);
      NodesWellFormed(s, pos + 1, stopTag, rawStart, acc);
    }
  }

  /**
   * NewParser: the whole input as a node list. A successful parse is a
   * well-formed tree: raw text is never empty, never holds `<` and never
   * follows raw text; every tag and attribute name is one the parser reads.
   */
  function Parse(s: string): (r: Result<seq<Node>, ParseError>)
    ensures r.Ok? ==> WellFormed(r.value)
  {
    NodesWellFormed(s, 0, "", 0, []);
    ParseNodes(s, 0, "", 0, [])
  }

  // ------------------------------------------------- accepted and refused

  /** After `<`, an empty tag name is exactly a missing name byte, and it is the `empty tag name` error. */
  lemma EmptyNameRefused(s: string, pos: nat)
    requires pos < |s| && s[pos] == '<'
    ensures OpenName(s, pos) == "" <==> NameStart(s, pos) == |s| || !IsNameByte(s[NameStart(s, pos)])
    ensures OpenName(s, pos) == "" ==> ParseElement(s, pos) == Err(EmptyTagName(NameStart(s, pos)))
  {
    TagNameEndSpec(s, NameStart(s, pos));
  }

  /** `</` where no closing tag is expected is an element with an empty name: `</x>` at the top level fails. */
  lemma TopLevelCloseRefused(s: string, pos: nat, rawStart: nat, acc: seq<Node>)
    requires rawStart <= pos && AtCloseTag(s, pos)
    ensures ParseElement(s, pos) == Err(EmptyTagName(pos + 1))
    ensures ParseNodes(s, pos, "", rawStart, acc) == Err(EmptyTagName(pos + 1))
  {
    EmptyNameRefused(s, pos);
  }

  /**
   * A well-formed closing tag for another element is not skipped: the
   * children loop reads it as an element, whose name is empty.
   */
  lemma MismatchedCloseRefused(s: string, pos: nat, tag: string, rawStart: nat, acc: seq<Node>)
    requires rawStart <= pos && AtCloseTag(s, pos)
    requires Current(s, CloseGtPos(s, pos)) == '>' && CloseName(s, pos) != tag
    ensures ParseChildren(s, pos, tag, rawStart, acc) == Err(EmptyTagName(pos + 1))
  {
    TopLevelCloseRefused(s, pos, rawStart, acc);
  }

  /** An element is self-closing exactly when its attributes end at `/>`. */
  lemma SelfClosingExactly(s: string, pos: nat)
    requires pos <= |s| && ParseElement(s, pos).Ok?
    ensures pos < |s| && OpenName(s, pos) != ""
    ensures var q := OpenAttrs(s, pos).pos;
      ParseElement(s, pos).value.value.selfClosing <==> q + 1 < |s| && s[q] == '/' && s[q + 1] == '>'
    ensures ParseElement(s, pos).value.value.selfClosing ==> ParseElement(s, pos).value.value.children == []
  {
  }

  /**
   * Input that ends inside an element, with no `<` left, ends the children
   * there: the text after the last tag is dropped and no error is raised.
   */
  lemma {:induction false} UnclosedDropsText(s: string, pos: nat, tag: string, rawStart: nat, acc: seq<Node>)
    requires rawStart <= pos <= |s|
    requires forall k :: pos <= k < |s| ==> s[k] != '<'
    ensures ParseChildren(s, pos, tag, rawStart, acc) == Ok(Step(acc, |s|))
    decreases |s| - pos
  {
    if pos < |s| {
      ChildrenSkip(s, pos, tag, rawStart, acc);
      UnclosedDropsText(s, pos + 1, tag, rawStart, acc);
    }
  }

  /** `<!--` is refused: `!` is not a name byte. */
  lemma CommentRefused()
    ensures Parse("<!--") == Err(EmptyTagName(1))
  {
    var s := "<!--";
    EmptyNameRefused(s, 0);
    NodesElement(s, 0, "", 0, []);
  }

  /** A `<` in running text opens an element: `a < b` reads the tag `b` and misses its `>`. */
  lemma LessThanInTextRefused()
    ensures Parse("a < b") == Err(ExpectedGt(5))
  {
    var s := "a < b";
    NodesSkip(s, 0, "", 0, []);
    NodesSkip(s, 1, "", 0, []);
    assert OpenName(s, 2) == "b";
    NodesElement(s, 2, "", 0, []);
  }

  /** A closing tag at the top level is refused. */
  lemma StrayCloseRefused()
    ensures Parse("</x>") == Err(EmptyTagName(1))
  {
    TopLevelCloseRefused("</x>", 0, 0, []);
  }

  /** A closing tag for another element is refused. */
  lemma WrongCloseRefused()
    ensures Parse("<a></b>") == Err(EmptyTagName(4))
  {
    var s := "<a></b>";
    assert OpenName(s, 0) == "a";
    assert CloseName(s, 3) == "b";
    MismatchedCloseRefused(s, 3, "a", 3, []);
    NodesElement(s, 0, "", 0, []);
  }

  /** The attribute list of `<a x=1/>`: the unquoted value takes the slash. */
  lemma UnquotedSlashAttrs()
    ensures OpenName("<a x=1/>", 0) == "a"
    ensures OpenAttrs("<a x=1/>", 0) == Step([Attribute("x", "1/")], 7)
  {
    var s := "<a x=1/>";
    assert NameStart(s, 0) == 1 && TagNameEnd(s, 1) == 2;
    assert SkipWs(s, 2) == 3 && AttrNameEnd(s, 3) == 4 && SkipWs(s, 4) == 4 && SkipWs(s, 5) == 5;
    assert UnquotedEnd(s, 5) == 7;
    assert s[5..7] == "1/" && s[3..4] == "x";
    assert AttrValue(s, 5) == Step("1/", 7);
    assert ReadAttr(s, 3) == Step(Some(Attribute("x", "1/")), 7);
    assert !AtTagEnd(s, 3) && SkipWs(s, 7) == 7 && AtTagEnd(s, 7);
    AttrLoopTakes(s, 2, []);
    assert [] + [Attribute("x", "1/")] == [Attribute("x", "1/")];
    AttrLoopStops(s, 7, [Attribute("x", "1/")]);
  }

  /** An unquoted value runs up to space or `>`, so `<a x=1/>` is an open element whose value is `1/`. */
  lemma UnquotedSlashKept()
    ensures Parse("<a x=1/>") == Ok([Element(ElementNode("a", [Attribute("x", "1/")], [], false, 0))])
  {
    var s := "<a x=1/>";
    UnquotedSlashAttrs();
    var e := ElementNode("a", [Attribute("x", "1/")], [], false, 0);
    UnclosedDropsText(s, 8, "a", 8, []);
    ElementWithChildren(s, 0, [], 8);
    NodesElement(s, 0, "", 0, []);
    assert ParseNodes(s, 0, "", 0, []) == ParseNodes(s, 8, "", 8, [] + RawIfAny(s, 0, 0) + [Element(e)]);
    assert [] + RawIfAny(s, 0, 0) + [Element(e)] == [Element(e)];
    assert ParseNodes(s, 8, "", 8, [Element(e)]) == Ok([Element(e)] + RawIfAny(s, 8, 8));
    assert [Element(e)] + RawIfAny(s, 8, 8) == [Element(e)];
  }

  /** An element still open at the end keeps no text: `<a>hi` is `a` without children. */
  lemma UnclosedTextDropped()
    ensures Parse("<a>hi") == Ok([Element(ElementNode("a", [], [], false, 0))])
  {
    var s := "<a>hi";
    assert NameStart(s, 0) == 1 && TagNameEnd(s, 1) == 2;
    assert OpenName(s, 0) == "a";
    assert SkipWs(s, 2) == 2;
    AttrLoopStops(s, 2, []);
    assert OpenAttrs(s, 0) == Step([], 2);
    var e := ElementNode("a", [], [], false, 0);
    UnclosedDropsText(s, 3, "a", 3, []);
    ElementWithChildren(s, 0, [], 5);
    NodesElement(s, 0, "", 0, []);
    assert ParseNodes(s, 0, "", 0, []) == ParseNodes(s, 5, "", 5, [] + RawIfAny(s, 0, 0) + [Element(e)]);
    assert [] + RawIfAny(s, 0, 0) + [Element(e)] == [Element(e)];
    assert ParseNodes(s, 5, "", 5, [Element(e)]) == Ok([Element(e)] + RawIfAny(s, 5, 5));
    assert [Element(e)] + RawIfAny(s, 5, 5) == [Element(e)];
  }
}
