/**
 * The sw-icon rule (internal/admintwiglinter/fix_icon.go): `sw-icon`
 * becomes `mt-icon`; on the lower-cased key, `small` becomes `size="16px"`,
 * `large` becomes `size="32px"`, a `size` is kept, and without any of the
 * three `size="24px"` is appended.
 */
module FixIcon {
  import opened Wrappers
  import opened Html
  import opened Text
  import opened FixerCommon

  const OldTag := "sw-icon"
  const NewTag := "mt-icon"
  const Message := "sw-icon is removed, use mt-icon instead with proper size prop."
  /** Check copies the element's line into its diagnostics. */
  const WithLine := true

  /** The keys, lower-cased, that count as a size. */
  const SizeKeys: set<string> := {"small", "large", "size"}

  /** One round of the attribute switch. */
  function MapAttr(a: Attribute): seq<Attribute> {
    var lower := ToLower(a.key);
    if lower == "small" then [Attribute("size", "16px")]
    else if lower == "large" then [Attribute("size", "32px")]
    else [a]
  }

  function NewAttrs(attrs: seq<Attribute>): seq<Attribute> {
    ConcatMap(MapAttr, attrs)
  }

  predicate IsSize(a: Attribute) {
    ToLower(a.key) in SizeKeys
  }

  predicate HasSize(attrs: seq<Attribute>) {
    exists j :: 0 <= j < |attrs| && IsSize(attrs[j])
  }

  /** The rewritten attribute list: the converted attributes, then `size="24px"` when there was no size. */
  function FixedAttributes(attrs: seq<Attribute>): seq<Attribute> {
    NewAttrs(attrs) + (if HasSize(attrs) then [] else [Attribute("size", "24px")])
  }

  /** The effect of the Fix callback on one element. */
  function Fixed(e: ElementNode): (r: ElementNode)
    ensures e.tag != OldTag ==> r == e
    ensures e.tag == OldTag ==> r.tag == NewTag && r.line == e.line && r.selfClosing == e.selfClosing && r.children == e.children
  {
    if e.tag != OldTag then e else e.(tag := NewTag, attributes := FixedAttributes(e.attributes))
  }

  lemma HasSizeSnoc(attrs: seq<Attribute>, a: Attribute)
    ensures HasSize(attrs + [a]) <==> HasSize(attrs) || IsSize(a)
  {
    var s := attrs + [a];
    if IsSize(a) {
      assert s[|attrs|] == a;
    }
    if HasSize(attrs) {
      var j :| 0 <= j < |attrs| && IsSize(attrs[j]);
      assert s[j] == attrs[j];
    }
    if HasSize(s) {
      var j :| 0 <= j < |s| && IsSize(s[j]);
      if j < |attrs| {
        assert s[j] == attrs[j];
      }
    }
  }

  /** The attribute loop, with its hasSize flag. */
  method ConvertAttributes(attrs: seq<Attribute>) returns (newAttrs: seq<Attribute>, hasSize: bool)
    ensures newAttrs == NewAttrs(attrs)
    ensures hasSize == HasSize(attrs)
  {
    newAttrs := [];
    hasSize := false;
    for i := 0 to |attrs|
      invariant newAttrs == NewAttrs(attrs[..i])
      invariant hasSize == HasSize(attrs[..i])
    {
      var attr := attrs[i];
      assert attrs[..i + 1] == attrs[..i] + [attr];
      assert attrs[..i + 1][..i] == attrs[..i];
      HasSizeSnoc(attrs[..i], attr);
      var lower := ToLower(attr.key);
      if lower == "small" {
        newAttrs := newAttrs + [Attribute("size", "16px")];
        hasSize := true;
      } else if lower == "large" {
        newAttrs := newAttrs + [Attribute("size", "32px")];
        hasSize := true;
      } else if lower == "size" {
        newAttrs := newAttrs + [attr];
        hasSize := true;
      } else {
        newAttrs := newAttrs + [attr];
      }
    }
    assert attrs[..|attrs|] == attrs;
  }

  /** The Fix callback. */
  method Fix(e: ElementNode) returns (r: ElementNode)
    ensures r == Fixed(e)
  {
    if e.tag != OldTag {
      return e;
    }
    var newAttrs, hasSize := ConvertAttributes(e.attributes);
    if !hasSize {
      newAttrs := newAttrs + [Attribute("size", "24px")];
    }
    r := e.(tag := NewTag, attributes := newAttrs);
  }

  predicate Untouched(a: Attribute) {
    !IsSize(a)
  }

  /** A `small` or `large` flag, in any case. */
  predicate IsFlag(a: Attribute) {
    ToLower(a.key) == "small" || ToLower(a.key) == "large"
  }

  /**
   * The attribute table: one attribute out for each in, no `small` or
   * `large` flag left, and the attributes that are not about size kept in
   * order.
   */
  lemma AttributeTable(attrs: seq<Attribute>)
    ensures |NewAttrs(attrs)| == |attrs|
    ensures forall i :: 0 <= i < |NewAttrs(attrs)| ==> !IsFlag(NewAttrs(attrs)[i])
    ensures Filter(Untouched, NewAttrs(attrs)) == Filter(Untouched, attrs)
  {
    ToLowerOfLower("size");
    ConcatMapOneEach(MapAttr, attrs);
    ConcatMapAvoids(MapAttr, IsFlag, attrs);
    ConcatMapKeeps(MapAttr, Untouched, attrs);
  }

  /** One size attribute is rewritten into one whose lower-cased key is `size`. */
  lemma MapAttrSized(a: Attribute)
    requires IsSize(a)
    ensures |MapAttr(a)| == 1 && ToLower(MapAttr(a)[0].key) == "size"
  {
    ToLowerOfLower("size");
  }

  /** A size attribute in, a size attribute out. */
  lemma {:induction false} SizeKept(attrs: seq<Attribute>)
    requires HasSize(attrs)
    ensures exists j :: 0 <= j < |NewAttrs(attrs)| && ToLower(NewAttrs(attrs)[j].key) == "size"
    decreases |attrs|
  {
    var init := attrs[..|attrs| - 1];
    var last := attrs[|attrs| - 1];
    assert attrs == init + [last];
    HasSizeSnoc(init, last);
    assert NewAttrs(attrs) == NewAttrs(init) + MapAttr(last);
    if IsSize(last) {
      MapAttrSized(last);
      assert NewAttrs(attrs)[|NewAttrs(init)|] == MapAttr(last)[0];
    } else {
      SizeKept(init);
      var j :| 0 <= j < |NewAttrs(init)| && ToLower(NewAttrs(init)[j].key) == "size";
      assert NewAttrs(attrs)[j] == NewAttrs(init)[j];
    }
  }

  /** Every rewritten icon carries a size. */
  lemma AlwaysSized(attrs: seq<Attribute>)
    ensures exists j :: 0 <= j < |FixedAttributes(attrs)| && ToLower(FixedAttributes(attrs)[j].key) == "size"
  {
    ToLowerOfLower("size");
    if HasSize(attrs) {
      SizeKept(attrs);
      var j :| 0 <= j < |NewAttrs(attrs)| && ToLower(NewAttrs(attrs)[j].key) == "size";
      assert FixedAttributes(attrs)[j] == NewAttrs(attrs)[j];
    } else {
      assert FixedAttributes(attrs)[|NewAttrs(attrs)|] == Attribute("size", "24px");
    }
  }

  /** The children are not touched. */
  lemma FixedChildren(e: ElementNode)
    ensures ChildrenFrom(Fixed(e), e)
  {
  }
}
