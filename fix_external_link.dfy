/**
 * The sw-external-link rule (internal/admintwiglinter/fix_external_link.go):
 * `sw-external-link` becomes `mt-external-link` and loses its `icon`
 * attributes; the children stay.
 */
module FixExternalLink {
  import opened Wrappers
  import opened Html
  import opened FixerCommon

  const OldTag := "sw-external-link"
  const NewTag := "mt-external-link"
  const Message := "sw-external-link is removed, use mt-external-link instead and remove the icon property."
  /** Check copies the element's line into its diagnostics. */
  const WithLine := true

  predicate NotIcon(a: Attribute) {
    a.key != "icon"
  }

  /** The effect of the Fix callback on one element. */
  function Fixed(e: ElementNode): (r: ElementNode)
    ensures e.tag != OldTag ==> r == e
    ensures e.tag == OldTag ==> r.tag == NewTag && r.line == e.line && r.selfClosing == e.selfClosing && r.children == e.children
  {
    if e.tag != OldTag then e else e.(tag := NewTag, attributes := Filter(NotIcon, e.attributes))
  }

  /** The Fix callback: a loop that skips `icon` and appends everything else. */
  method Fix(e: ElementNode) returns (r: ElementNode)
    ensures r == Fixed(e)
  {
    if e.tag != OldTag {
      return e;
    }
    var attrs := e.attributes;
    var newAttrs := [];
    for i := 0 to |attrs|
      invariant newAttrs == Filter(NotIcon, attrs[..i])
    {
      var attr := attrs[i];
      assert attrs[..i + 1][..i] == attrs[..i];
      if attr.key == "icon" {
        continue;
      }
      newAttrs := newAttrs + [attr];
    }
    assert attrs[..|attrs|] == attrs;
    r := e.(tag := NewTag, attributes := newAttrs);
  }

  /**
   * No `icon` is left, every attribute kept is one of the element's, one
   * per attribute that is not an `icon`, and a link without `icon` keeps
   * its attributes as they are.
   */
  lemma AttributeTable(attrs: seq<Attribute>)
    ensures forall i :: 0 <= i < |Filter(NotIcon, attrs)| ==> Filter(NotIcon, attrs)[i].key != "icon" && Filter(NotIcon, attrs)[i] in attrs
    ensures |Filter(NotIcon, attrs)| == CountIf(NotIcon, attrs)
    ensures (forall i :: 0 <= i < |attrs| ==> attrs[i].key != "icon") ==> Filter(NotIcon, attrs) == attrs
  {
    FilterMembers(NotIcon, attrs);
    FilterCount(NotIcon, attrs);
    if forall i :: 0 <= i < |attrs| ==> attrs[i].key != "icon" {
      FilterAll(NotIcon, attrs);
    }
  }

  /** The children are not touched. */
  lemma FixedChildren(e: ElementNode)
    ensures ChildrenFrom(Fixed(e), e)
  {
  }
}
