/**
 * The Parser of internal/html/parser.go: a byte cursor over the input that
 * its methods advance in loops, saving and restoring it for look-ahead.
 * Every method is proved to leave the cursor where, and to return what, the
 * matching function of HtmlParserSpec says.
 */
module HtmlParser {
  import opened Wrappers
  import opened Html
  import opened HtmlParserSpec

  class Parser {
    const input: string
    const length: int := |input|
    var pos: nat

    /** The cursor stays inside the input (it may sit just past its end). */
    ghost predicate Valid()
      reads this
    {
      pos <= length
    }

    constructor (input: string)
      ensures Valid() && this.input == input && pos == 0
    {
      this.input := input;
      this.pos := 0;
    }

    /** current(): the byte under the cursor, or byte 0 at the end. */
    function CurrentByte(): (c: char)
      reads this
      requires Valid()
      ensures c == Current(input, pos)
    {
      if pos >= length then 0 as char else input[pos]
    }

    /** peek(n): the next n bytes, or what remains. */
    function PeekBytes(n: nat): (r: string)
      reads this
      requires Valid()
      ensures r == Peek(input, pos, n)
    {
      if pos + n > length then input[pos..] else input[pos..pos + n]
    }

    /** skipWhitespace. */
    method SkipWhitespace()
      requires Valid()
      modifies this`pos
      ensures Valid() && pos == SkipWs(input, old(pos))
    {
      while pos < length && IsSpace(input[pos])
        invariant Valid() && old(pos) <= pos
        invariant SkipWs(input, pos) == SkipWs(input, old(pos))
        decreases length - pos
      {
        pos := pos + 1;
      }
    }

    /** parseTagName. */
    method ParseTagName() returns (name: string)
      requires Valid()
      modifies this`pos
      ensures Valid() && pos == TagNameEnd(input, old(pos))
      ensures name == input[old(pos)..pos]
    {
      var start := pos;
      while pos < length
        invariant Valid() && start <= pos
        invariant TagNameEnd(input, pos) == TagNameEnd(input, start)
        decreases length - pos
      {
        var c := input[pos];
        if IsNameByte(c) {
          pos := pos + 1;
        } else {
          break;
        }
      }
      name := input[start..pos];
    }

    /** parseAttrName. */
    method ParseAttrName() returns (name: string)
      requires Valid()
      modifies this`pos
      ensures Valid() && pos == AttrNameEnd(input, old(pos))
      ensures name == input[old(pos)..pos]
    {
      var start := pos;
      while pos < length
        invariant Valid() && start <= pos
        invariant AttrNameEnd(input, pos) == AttrNameEnd(input, start)
        decreases length - pos
      {
        var c := input[pos];
        if c == ' ' || c == '\n' || c == '\r' || c == '\t' || c == '=' || c == '>' || c == '/' {
          break;
        }
        pos := pos + 1;
      }
      name := input[start..pos];
    }

    /** parseAttrValue. */
    method ParseAttrValue() returns (val: string)
      requires Valid()
      modifies this`pos
      ensures Valid() && Step(val, pos) == AttrValue(input, old(pos))
    {
      if CurrentByte() == '"' {
        pos := pos + 1;
        var start := pos;
        while pos < length && CurrentByte() != '"'
          invariant Valid() && start <= pos
          invariant QuoteEnd(input, pos) == QuoteEnd(input, start)
          decreases length - pos
        {
          pos := pos + 1;
        }
        val := input[start..pos];
        if CurrentByte() == '"' {
          pos := pos + 1;
        }
        return;
      }
      var start := pos;
      while pos < length && CurrentByte() != ' ' && CurrentByte() != '>'
        invariant Valid() && start <= pos
        invariant UnquotedEnd(input, pos) == UnquotedEnd(input, start)
        decreases length - pos
      {
        pos := pos + 1;
      }
      val := input[start..pos];
    }

    /**
     * One round of the attribute loop of parseElement after its white
     * space: a name (nothing when it is empty) and an optional `= value`.
     */
    method ParseAttribute() returns (attr: Option<Attribute>)
      requires Valid()
      modifies this`pos
      ensures Valid() && Step(attr, pos) == ReadAttr(input, old(pos))
    {
      var attrName := ParseAttrName();
      if attrName == "" {
        return None;
      }
      SkipWhitespace();
      var attrVal := "";
      if CurrentByte() == '=' {
        pos := pos + 1;
        SkipWhitespace();
        attrVal := ParseAttrValue();
      }
      return Some(Attribute(attrName, attrVal));
    }

    /** The attribute loop of parseElement. */
    method ParseAttributes() returns (attrs: seq<Attribute>)
      requires Valid()
      modifies this`pos
      ensures Valid() && Step(attrs, pos) == AttrLoop(input, old(pos), [])
    {
      ghost var spec := AttrLoop(input, pos, []);
      attrs := [];
      while pos < length
        invariant Valid()
        invariant AttrLoop(input, pos, attrs) == spec
        decreases length - pos
      {
        ghost var p0 := pos;
        SkipWhitespace();
        if CurrentByte() == '>' || (CurrentByte() == '/' && PeekBytes(2) == "/>") {
          AttrLoopStops(input, p0, attrs);
          break;
        }
        var attr := ParseAttribute();
        if attr.None? {
          AttrLoopStops(input, p0, attrs);
          break;
        }
        AttrLoopTakes(input, p0, attrs);
        attrs := attrs + [attr.value];
      }
    }

    /** parseElement, with the cursor on the `<` that opens the element. */
    method ParseElement() returns (r: Result<ElementNode, ParseError>)
      requires Valid()
      modifies this`pos
      ensures Valid()
      ensures r == ValueOf(HtmlParserSpec.ParseElement(input, old(pos)))
      ensures r.Ok? ==> pos == HtmlParserSpec.ParseElement(input, old(pos)).value.pos
      decreases length - pos, 0
    {
      if CurrentByte() != '<' {
        return Err(ExpectedLt(pos));
      }
      ghost var p0 := pos;
      pos := pos + 1;
      SkipWhitespace();
      var tagName := ParseTagName();
      if tagName == "" {
        return Err(EmptyTagName(pos));
      }
      var attrs := ParseAttributes();
      assert tagName == OpenName(input, p0) && Step(attrs, pos) == OpenAttrs(input, p0);
      if CurrentByte() == '/' {
        pos := pos + 1;
        if CurrentByte() != '>' {
          return Err(ExpectedGtAfterSlash(pos));
        }
        pos := pos + 1;
        return Ok(ElementNode(tagName, attrs, [], true, 0));
      }
      if CurrentByte() == '>' {
        pos := pos + 1;
      } else {
        return Err(ExpectedGt(pos));
      }
      var children := ParseElementChildren(tagName);
      if children.Err? {
        return Err(children.error);
      }
      return Ok(ElementNode(tagName, attrs, children.value, false, 0));
    }

    /**
     * The look-ahead both node loops make on `</`: skip it and any white
     * space, and read the closing tag's name.
     */
    method ReadClosingName() returns (closingTag: string)
      requires Valid() && AtCloseTag(input, pos)
      modifies this`pos
      ensures Valid() && closingTag == CloseName(input, old(pos))
      ensures pos == TagNameEnd(input, CloseNameStart(input, old(pos)))
    {
      pos := pos + 2;
      SkipWhitespace();
      closingTag := ParseTagName();
    }

    /** The flush of pending raw text both node loops make: `nodes` with input[from..to] appended when it is not empty. */
    method AppendRaw(nodes: seq<Node>, from: int, to: int) returns (r: seq<Node>)
      requires Valid() && 0 <= from <= to <= length
      ensures r == nodes + RawIfAny(input, from, to)
    {
      r := nodes;
      if from < to {
        var text := input[from..to];
        if text != "" {
          r := r + [Raw(text)];
        }
      }
    }

    /** parseElementChildren: the children of `tag` up to its closing tag. */
    method ParseElementChildren(tag: string) returns (r: Result<seq<Node>, ParseError>)
      requires Valid()
      modifies this`pos
      ensures Valid()
      ensures r == ValueOf(ParseChildren(input, old(pos), tag, old(pos), []))
      ensures r.Ok? ==> pos == ParseChildren(input, old(pos), tag, old(pos), []).value.pos
      decreases length - pos, 1
    {
      ghost var spec := ParseChildren(input, pos, tag, pos, []);
      var children: seq<Node> := [];
      var rawStart := pos;
      while pos < length
        invariant Valid() && old(pos) <= rawStart <= pos
        invariant ParseChildren(input, pos, tag, rawStart, children) == spec
        decreases length - pos
      {
        ghost var p0 := pos;
        if CurrentByte() == '<' && PeekBytes(2) == "</" {
          PeekCloseTag(input, pos);
          var savedPos := pos;
          var closingTag := ReadClosingName();
          SkipWhitespace();
          if CurrentByte() == '>' {
            pos := pos + 1;
          } else {
            ChildrenBadClose(input, p0, tag, rawStart, children);
            return Err(ExpectedGtForClosingTag(pos));
          }
          if closingTag == tag {
            ChildrenClosed(input, p0, tag, rawStart, children);
            children := AppendRaw(children, rawStart, savedPos);
            return Ok(children);
          } else {
            pos := savedPos;
          }
        }
        if CurrentByte() == '<' {
          ChildrenElement(input, p0, tag, rawStart, children);
          children := AppendRaw(children, rawStart, pos);
          var child := ParseElement();
          if child.Err? {
            return Err(child.error);
          }
          children := children + [Element(child.value)];
          rawStart := pos;
        } else {
          ChildrenSkip(input, p0, tag, rawStart, children);
          pos := pos + 1;
        }
      }
      return Ok(children);
    }

    /** parseNodes: the node list up to the end or to `</stopTag`. */
    method ParseNodeList(stopTag: string) returns (r: Result<seq<Node>, ParseError>)
      requires Valid()
      modifies this`pos
      ensures Valid()
      ensures r == ParseNodes(input, old(pos), stopTag, old(pos), [])
    {
      ghost var spec := ParseNodes(input, pos, stopTag, pos, []);
      var nodes: seq<Node> := [];
      var rawStart := pos;
      while pos < length
        invariant Valid() && old(pos) <= rawStart <= pos
        invariant ParseNodes(input, pos, stopTag, rawStart, nodes) == spec
        decreases length - pos
      {
        ghost var p0 := pos;
        if CurrentByte() == '<' && PeekBytes(2) == "</" {
          PeekCloseTag(input, pos);
          var savedPos := pos;
          var closingTag := ReadClosingName();
          pos := savedPos;
          if stopTag != "" && closingTag == stopTag {
            NodesStopped(input, p0, stopTag, rawStart, nodes);
            break;
          }
        }
        if CurrentByte() == '<' {
          NodesElement(input, p0, stopTag, rawStart, nodes);
          nodes := AppendRaw(nodes, rawStart, pos);
          var element := ParseElement();
          if element.Err? {
            return Err(element.error);
          }
          nodes := nodes + [Element(element.value)];
          rawStart := pos;
        } else {
          NodesSkip(input, p0, stopTag, rawStart, nodes);
          pos := pos + 1;
        }
      }
      nodes := AppendRaw(nodes, rawStart, pos);
      return Ok(nodes);
    }
  }

  /** NewParser: parse a whole input from position 0. */
  method NewParser(input: string) returns (r: Result<seq<Node>, ParseError>)
    ensures r == Parse(input)
    ensures r.Ok? ==> WellFormed(r.value)
  {
    var p := new Parser(input);
    r := p.ParseNodeList("");
  }
}
