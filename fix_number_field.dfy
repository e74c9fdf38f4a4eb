/**
 * The sw-number-field rule (internal/admintwiglinter/fix_number_field.go):
 * `sw-number-field` becomes `mt-number-field`, its attributes go through a key switch,
 * the last `#label` template becomes a `label` attribute, and the
 * children are dropped.
 */
module FixNumberField {
  import opened Wrappers
  import opened Html
  import opened Text
  import opened FixerCommon

  const OldTag := "sw-number-field"
  const NewTag := "mt-number-field"
  const Message := "sw-number-field is removed, use mt-number-field instead. Please review conversion for props, events and label slot."
  /** Check copies the element's line into its diagnostics. */
  const WithLine := true

  /** The plain cases of the attribute switch. */
  const Renames: KeyTable := map[
    ":value" := Some(":model-value"),
    "@update:value" := Some("@change")]

  /** Every key the switch handles or produces; attributes with any other key are passed through. */
  const Touched: set<string> := {":value", ":model-value", "v-model:value", "@change", "@update:value"}

  const LabelKeys: set<string> := {"#label"}

  /** One round of the attribute switch: `v-model:value` becomes a `:model-value` and a `@change`. */
  function MapAttr(a: Attribute): seq<Attribute> {
    if a.key == "v-model:value" then [Attribute(":model-value", a.value), Attribute("@change", a.value + " = $event")] else Rename(Renames, a)
  }

  function NewAttrs(attrs: seq<Attribute>): seq<Attribute> {
    ConcatMap(MapAttr, attrs)
  }

  /** The rewritten attribute list: the converted attributes, then `label` when the label text is not empty. */
  function FixedAttributes(attrs: seq<Attribute>, cs: seq<Node>): seq<Attribute> {
    NewAttrs(attrs) + LabelIfAny("label", LastSlotText(cs, LabelKeys, true))
  }

  /** The effect of the Fix callback on one element. */
  function Fixed(e: ElementNode): (r: ElementNode)
    ensures e.tag != OldTag ==> r == e
    ensures e.tag == OldTag ==> r.tag == NewTag && r.line == e.line && r.selfClosing == e.selfClosing && r.children == []
  {
    if e.tag != OldTag then e else e.(tag := NewTag, attributes := FixedAttributes(e.attributes, e.children), children := [])
  }

  method ConvertAttributes(attrs: seq<Attribute>) returns (newAttrs: seq<Attribute>)
    ensures newAttrs == NewAttrs(attrs)
  {
    newAttrs := [];
    for i := 0 to |attrs|
      invariant newAttrs == NewAttrs(attrs[..i])
    {
      var attr := attrs[i];
      assert attrs[..i + 1][..i] == attrs[..i];
      if attr.key == ":value" {
        newAttrs := newAttrs + [Attribute(":model-value", attr.value)];
      } else if attr.key == "v-model:value" {
        newAttrs := newAttrs + [Attribute(":model-value", attr.value), Attribute("@change", attr.value + " = $event")];
      } else if attr.key == "@update:value" {
        newAttrs := newAttrs + [Attribute("@change", attr.value)];
      } else {
        newAttrs := newAttrs + [attr];
      }
    }
    assert attrs[..|attrs|] == attrs;
  }

  /** The Fix callback. */
  method Fix(e: ElementNode) returns (r: ElementNode)
    ensures r == Fixed(e)
  {
    if e.tag != OldTag {
      return e;
    }
    var attributes := ConvertAttributes(e.attributes);
    var text := ReadLastSlot(e.children, LabelKeys, true);
    if text != "" {
      attributes := attributes + [Attribute("label", text)];
    }
    assert attributes == FixedAttributes(e.attributes, e.children);
    r := e.(tag := NewTag, attributes := attributes, children := []);
  }

  predicate Untouched(a: Attribute) {
    a.key !in Touched
  }

  predicate IsSource(a: Attribute) {
    a.key in Renames || a.key == "v-model:value"
  }

  predicate IsVModel(a: Attribute) {
    a.key == "v-model:value"
  }

  /**
   * The attribute table: no handled key survives; the attributes the
   * switch neither handles nor produces keep their values and order;
   * every `v-model:value` turns into two attributes and every other
   * attribute into one.
   */
  lemma AttributeTable(attrs: seq<Attribute>)
    ensures forall i :: 0 <= i < |NewAttrs(attrs)| ==> !IsSource(NewAttrs(attrs)[i])
    ensures Filter(Untouched, NewAttrs(attrs)) == Filter(Untouched, attrs)
    ensures |NewAttrs(attrs)| == |attrs| + CountIf(IsVModel, attrs)
  {
    ConcatMapAvoids(MapAttr, IsSource, attrs);
    ConcatMapKeeps(MapAttr, Untouched, attrs);
    ConcatMapGrowth(MapAttr, IsVModel, attrs);
  }

  /**
   * A `v-model:value` binding splits into a one-way `:model-value` and a
   * `@change` handler assigning the event back to the same expression.
   */
  lemma VModelSplit(attrs: seq<Attribute>, x: string)
    ensures NewAttrs(attrs + [Attribute("v-model:value", x)])
      == NewAttrs(attrs) + [Attribute(":model-value", x), Attribute("@change", x + " = $event")]
  {
    ConcatMapAppend(MapAttr, attrs, [Attribute("v-model:value", x)]);
    ConcatMapOne(MapAttr, Attribute("v-model:value", x));
  }

  /**
   * The label slot: when the last `#label` template has non-empty text,
   * the rewritten element carries `label` with that text right after the
   * converted attributes, and nothing else.
   */
  lemma LabelFromLastSlot(e: ElementNode, i: int)
    requires e.tag == OldTag && 0 <= i < |e.children|
    requires IsSlot(e.children[i], LabelKeys, true) && NoSlotFrom(e.children, i + 1, LabelKeys, true)
    requires TrimmedDumps(e.children[i].el.children) != ""
    ensures Fixed(e).attributes == NewAttrs(e.attributes) + [Attribute("label", TrimmedDumps(e.children[i].el.children))]
  {
    LastSlotTextWins(e.children, i, LabelKeys, true);
  }

  /** Without a `#label` template the attributes are just the converted ones. */
  lemma NoLabelSlot(e: ElementNode)
    requires e.tag == OldTag && NoSlotFrom(e.children, 0, LabelKeys, true)
    ensures Fixed(e).attributes == NewAttrs(e.attributes)
  {
    LastSlotTextNone(e.children, LabelKeys, true);
  }

  /** Rewritten children are gone. */
  lemma FixedChildren(e: ElementNode)
    ensures ChildrenFrom(Fixed(e), e)
  {
  }
}
