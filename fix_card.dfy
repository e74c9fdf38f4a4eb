/**
 * The sw-card rule (internal/admintwiglinter/fix_card.go): `sw-card`
 * becomes `mt-card`, `aiBadge` and `contentPadding` are removed, and an
 * `aiBadge` puts a title slot holding an `sw-ai-copilot-badge` in front of
 * the children.
 */
module FixCard {
  import opened Wrappers
  import opened Html
  import opened FixerCommon

  const OldTag := "sw-card"
  const NewTag := "mt-card"
  const Message := "sw-card is removed, use mt-card instead. Review conversion for aiBadge and contentPadding."
  /** Check copies the element's line into its diagnostics. */
  const WithLine := true

  /** The title slot the rule prepends: `<slot name="title"><sw-ai-copilot-badge></sw-ai-copilot-badge></slot>`. */
  const BadgeSlot: Node :=
    Element(ElementNode("slot", [Attribute("name", "title")], [Element(ElementNode("sw-ai-copilot-badge", [], [], false, 0))], false, 0))

  /** An attribute the switch keeps. */
  predicate Kept(a: Attribute) {
    a.key != "aiBadge" && a.key != "contentPadding"
  }

  /** The effect of the Fix callback on one element. */
  function Fixed(e: ElementNode): (r: ElementNode)
    ensures e.tag != OldTag ==> r == e
    ensures e.tag == OldTag ==> r.tag == NewTag && r.line == e.line && r.selfClosing == e.selfClosing
  {
    if e.tag != OldTag then e
    else e.(tag := NewTag, attributes := Filter(Kept, e.attributes),
            children := (if HasKey(e.attributes, {"aiBadge"}) then [BadgeSlot] else []) + e.children)
  }

  /** The attribute loop, with its aiBadgeFound flag. */
  method ConvertAttributes(attrs: seq<Attribute>) returns (newAttrs: seq<Attribute>, aiBadgeFound: bool)
    ensures newAttrs == Filter(Kept, attrs)
    ensures aiBadgeFound == HasKey(attrs, {"aiBadge"})
  {
    newAttrs := [];
    aiBadgeFound := false;
    for i := 0 to |attrs|
      invariant newAttrs == Filter(Kept, attrs[..i])
      invariant aiBadgeFound == HasKey(attrs[..i], {"aiBadge"})
    {
      var attr := attrs[i];
      assert attrs[..i + 1] == attrs[..i] + [attr];
      assert attrs[..i + 1][..i] == attrs[..i];
      HasKeySnoc(attrs[..i], attr, {"aiBadge"});
      if attr.key == "aiBadge" || attr.key == "contentPadding" {
        if attr.key == "aiBadge" {
          aiBadgeFound := true;
        }
      } else {
        newAttrs := newAttrs + [attr];
      }
    }
    assert attrs[..|attrs|] == attrs;
  }

  /** The Fix callback. */
  method Fix(e: ElementNode) returns (r: ElementNode)
    ensures r == Fixed(e)
  {
    if e.tag != OldTag {
      return e;
    }
    var newAttrs, aiBadgeFound := ConvertAttributes(e.attributes);
    var children := e.children;
    if aiBadgeFound {
      var aiBadgeSlot := ElementNode("slot", [Attribute("name", "title")], [Element(ElementNode("sw-ai-copilot-badge", [], [], false, 0))], false, 0);
      children := [Element(aiBadgeSlot)] + children;
    }
    r := e.(tag := NewTag, attributes := newAttrs, children := children);
  }

  /**
   * The attribute table: no `aiBadge` or `contentPadding` is left, the
   * other attributes are kept in order, one for each, and a card without
   * the two keeps its attributes as they are.
   */
  lemma AttributeTable(attrs: seq<Attribute>)
    ensures forall i :: 0 <= i < |Filter(Kept, attrs)| ==> Kept(Filter(Kept, attrs)[i]) && Filter(Kept, attrs)[i] in attrs
    ensures |Filter(Kept, attrs)| == CountIf(Kept, attrs)
    ensures (forall i :: 0 <= i < |attrs| ==> Kept(attrs[i])) ==> Filter(Kept, attrs) == attrs
  {
    FilterMembers(Kept, attrs);
    FilterCount(Kept, attrs);
    if forall i :: 0 <= i < |attrs| ==> Kept(attrs[i]) {
      FilterAll(Kept, attrs);
    }
  }

  /** With an `aiBadge` the badge slot comes first and the old children follow in order; without one the children are the old ones. */
  lemma BadgeSlotFirst(e: ElementNode)
    requires e.tag == OldTag
    ensures HasKey(e.attributes, {"aiBadge"}) ==> Fixed(e).children[0] == BadgeSlot && Fixed(e).children[1..] == e.children
    ensures !HasKey(e.attributes, {"aiBadge"}) ==> Fixed(e).children == e.children
  {
  }

  /**
   * Every child the traversal visits after the rewrite ranks below the
   * card: the badge slot ranks 2, below the weight 3 of `sw-card`, and the
   * old children are children of the card.
   */
  lemma FixedChildrenRanked(e: ElementNode)
    ensures forall i :: 0 <= i < |Fixed(e).children| && Fixed(e).children[i].Element? ==> Rank(Fixed(e).children[i].el) < Rank(e)
  {
    if e.tag == OldTag {
      var r := Fixed(e);
      assert Rank(BadgeSlot.el) == 2 by {
        var badge := ElementNode("sw-ai-copilot-badge", [], [], false, 0);
        assert Rank(badge) == 1;
        assert [Element(badge)][1..] == [];
        assert ChildrenRank([Element(badge)]) == 1;
      }
      forall i | 0 <= i < |r.children| && r.children[i].Element?
        ensures Rank(r.children[i].el) < Rank(e)
      {
        if HasKey(e.attributes, {"aiBadge"}) && i == 0 {
        } else {
          var k := if HasKey(e.attributes, {"aiBadge"}) then i - 1 else i;
          assert r.children[i] == e.children[k];
          MemberRankBelow(e.children, e.children[k]);
        }
      }
    } else {
      KeptChildrenRankBelow(e, e);
    }
  }

  /**
   * A card rewrite brings in no tag but `mt-card`, `slot` and
   * `sw-ai-copilot-badge`, so a subtree free of any other tag stays free
   * of it.
   */
  lemma FixedKeepsAbsent(x: ElementNode, t: string)
    requires NoTag(PreOrderNode(Element(x)), t)
    requires t != NewTag && t != "slot" && t != "sw-ai-copilot-badge"
    ensures NoTag(PreOrderNode(Element(Fixed(x))), t)
  {
    if x.tag == OldTag {
      var r := Fixed(x);
      assert PreOrderNode(Element(x)) == [x] + PreOrder(x.children);
      NoTagSplit([x], PreOrder(x.children), t);
      var badge := ElementNode("sw-ai-copilot-badge", [], [], false, 0);
      assert PreOrder([BadgeSlot]) == [BadgeSlot.el, badge] by {
        assert [BadgeSlot][1..] == [];
        assert [Element(badge)][1..] == [];
        assert PreOrder([Element(badge)]) == [badge];
      }
      var extra := if HasKey(x.attributes, {"aiBadge"}) then [BadgeSlot] else [];
      assert r.children == extra + x.children;
      PreOrderAppend(extra, x.children);
      NoTagSplit(PreOrder(extra), PreOrder(x.children), t);
      assert PreOrderNode(Element(r)) == [r] + PreOrder(r.children);
      assert NoTag([r], t);
      NoTagSplit([r], PreOrder(r.children), t);
    }
  }
}
