/**
 * The sw-url-field rule (internal/admintwiglinter/fix_url_field.go):
 * `sw-url-field` becomes `mt-url-field`, its attributes go through a key switch,
 * the last `#label` element child becomes a `label` attribute, and the
 * children are dropped. Unlike the other field rules, any element child
 * counts as a label slot, not only a `template`.
 */
module FixUrlField {
  import opened Wrappers
  import opened Html
  import opened Text
  import opened FixerCommon

  const OldTag := "sw-url-field"
  const NewTag := "mt-url-field"
  const Message := "sw-url-field is removed, use mt-url-field instead. Review conversion for props, events, label and hint slot."
  /** Check copies the element's line into its diagnostics. */
  const WithLine := true

  /** The plain cases of the attribute switch. */
  const Renames: KeyTable := map[
    "value" := Some("model-value"),
    "v-model:value" := Some("v-model"),
    "@update:value" := Some("@update:model-value")]

  /** Every key the switch handles or produces; attributes with any other key are passed through. */
  const Touched: set<string> := {"value", "model-value", "v-model:value", "v-model", "@update:value", "@update:model-value"}

  const LabelKeys: set<string> := {"#label"}

  /** One round of the attribute switch. */
  function MapAttr(a: Attribute): seq<Attribute> {
    Rename(Renames, a)
  }

  function NewAttrs(attrs: seq<Attribute>): seq<Attribute> {
    ConcatMap(MapAttr, attrs)
  }

  /** The rewritten attribute list: the converted attributes, then `label` when the label text is not empty. */
  function FixedAttributes(attrs: seq<Attribute>, cs: seq<Node>): seq<Attribute> {
    NewAttrs(attrs) + LabelIfAny("label", LastSlotText(cs, LabelKeys, false))
  }

  /** The effect of the Fix callback on one element. */
  function Fixed(e: ElementNode): (r: ElementNode)
    ensures e.tag != OldTag ==> r == e
    ensures e.tag == OldTag ==> r.tag == NewTag && r.line == e.line && r.selfClosing == e.selfClosing && r.children == []
  {
    if e.tag != OldTag then e else e.(tag := NewTag, attributes := FixedAttributes(e.attributes, e.children), children := [])
  }

  method ConvertAttributes(attrs: seq<Attribute>) returns (newAttrs: seq<Attribute>)
    ensures newAttrs == NewAttrs(attrs)
  {
    newAttrs := [];
    for i := 0 to |attrs|
      invariant newAttrs == NewAttrs(attrs[..i])
    {
      var attr := attrs[i];
      assert attrs[..i + 1][..i] == attrs[..i];
      if attr.key == "value" {
        newAttrs := newAttrs + [Attribute("model-value", attr.value)];
      } else if attr.key == "v-model:value" {
        newAttrs := newAttrs + [Attribute("v-model", attr.value)];
      } else if attr.key == "@update:value" {
        newAttrs := newAttrs + [Attribute("@update:model-value", attr.value)];
      } else {
        newAttrs := newAttrs + [attr];
      }
    }
    assert attrs[..|attrs|] == attrs;
  }

  /** The Fix callback. */
  method Fix(e: ElementNode) returns (r: ElementNode)
    ensures r == Fixed(e)
  {
    if e.tag != OldTag {
      return e;
    }
    var attributes := ConvertAttributes(e.attributes);
    var text := ReadLastSlot(e.children, LabelKeys, false);
    if text != "" {
      attributes := attributes + [Attribute("label", text)];
    }
    assert attributes == FixedAttributes(e.attributes, e.children);
    r := e.(tag := NewTag, attributes := attributes, children := []);
  }

  predicate Untouched(a: Attribute) {
    a.key !in Touched
  }


  /**
   * The attribute table: no handled key survives; the attributes the
   * switch neither handles nor produces keep their values and order;
   * none is lost.
   */
  lemma AttributeTable(attrs: seq<Attribute>)
    ensures forall i :: 0 <= i < |NewAttrs(attrs)| ==> NewAttrs(attrs)[i].key !in Renames
    ensures Filter(Untouched, NewAttrs(attrs)) == Filter(Untouched, attrs)
    ensures |NewAttrs(attrs)| == |attrs|
  {
    ConcatMapAvoids(MapAttr, (a: Attribute) => a.key in Renames, attrs);
    ConcatMapKeeps(MapAttr, Untouched, attrs);
    ConcatMapOneEach(MapAttr, attrs);
  }

  /**
   * The label slot: when the last `#label` element child has non-empty text,
   * the rewritten element carries `label` with that text right after the
   * converted attributes, and nothing else.
   */
  lemma LabelFromLastSlot(e: ElementNode, i: int)
    requires e.tag == OldTag && 0 <= i < |e.children|
    requires IsSlot(e.children[i], LabelKeys, false) && NoSlotFrom(e.children, i + 1, LabelKeys, false)
    requires TrimmedDumps(e.children[i].el.children) != ""
    ensures Fixed(e).attributes == NewAttrs(e.attributes) + [Attribute("label", TrimmedDumps(e.children[i].el.children))]
  {
    LastSlotTextWins(e.children, i, LabelKeys, false);
  }

  /** Without a `#label` element child the attributes are just the converted ones. */
  lemma NoLabelSlot(e: ElementNode)
    requires e.tag == OldTag && NoSlotFrom(e.children, 0, LabelKeys, false)
    ensures Fixed(e).attributes == NewAttrs(e.attributes)
  {
    LastSlotTextNone(e.children, LabelKeys, false);
  }

  /** Rewritten children are gone. */
  lemma FixedChildren(e: ElementNode)
    ensures ChildrenFrom(Fixed(e), e)
  {
  }
}
