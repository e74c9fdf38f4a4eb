/**
 * The sw-datepicker rule (internal/admintwiglinter/fix_datepicker.go): `sw-datepicker`
 * becomes `mt-datepicker` and three keys are renamed in place; every `#label` of a `template`
 * child appends the untrimmed dumps of its children to a `label`
 * attribute, and the children are dropped.
 */
module FixDatepicker {
  import opened Wrappers
  import opened Html
  import opened FixerCommon

  const OldTag := "sw-datepicker"
  const NewTag := "mt-datepicker"
  const Message := "sw-datepicker is removed, use mt-datepicker instead. Please review the conversion for the label property."
  /** Check copies the element's line into its diagnostics. */
  const WithLine := true

  /** The keys the rename loop rewrites in place. */
  const Renames: map<string, string> := map[":value" := ":model-value", "v-model:value" := "v-model", "@update:value" := "@update:model-value"]

  /** The rewritten attribute list: the renamed attributes, then `label` when the accumulated label is not empty. */
  function FixedAttributes(attrs: seq<Attribute>, cs: seq<Node>): seq<Attribute> {
    RenameKeys(Renames, attrs) + LabelIfAny("label", SlotDumps(cs))
  }

  /** The effect of the Fix callback on one element. */
  function Fixed(e: ElementNode): (r: ElementNode)
    ensures e.tag != OldTag ==> r == e
    ensures e.tag == OldTag ==> r.tag == NewTag && r.line == e.line && r.selfClosing == e.selfClosing && r.children == []
  {
    if e.tag != OldTag then e else e.(tag := NewTag, attributes := FixedAttributes(e.attributes, e.children), children := [])
  }

  /** The Fix callback: the attribute keys are rewritten in the element's own attribute array. */
  method Fix(e: ElementNode) returns (r: ElementNode)
    ensures r == Fixed(e)
  {
    if e.tag != OldTag {
      return e;
    }
    var a := new Attribute[|e.attributes|](i requires 0 <= i < |e.attributes| => e.attributes[i]);
    assert a[..] == e.attributes;
    RenameKeysInPlace(a, Renames);
    var attributes := a[..];
    var text := AccumulateSlotDumps(e.children);
    if text != "" {
      attributes := attributes + [Attribute("label", text)];
    }
    assert attributes == FixedAttributes(e.attributes, e.children);
    r := e.(tag := NewTag, attributes := attributes, children := []);
  }

  /**
   * The rename: same length and values, every attribute with another key
   * in its place, and none of the renamed keys left.
   */
  lemma AttributeTable(attrs: seq<Attribute>)
    ensures |RenameKeys(Renames, attrs)| == |attrs|
    ensures forall i :: 0 <= i < |attrs| ==> RenameKeys(Renames, attrs)[i].value == attrs[i].value
    ensures forall i :: 0 <= i < |attrs| && attrs[i].key !in Renames ==> RenameKeys(Renames, attrs)[i] == attrs[i]
    ensures forall i :: 0 <= i < |attrs| ==> RenameKeys(Renames, attrs)[i].key !in Renames
  {
    RenameKeysTable(Renames, attrs);
  }

  /**
   * The label slot: a single `#label` template gives `label` with its
   * children's dumps untrimmed, white space included.
   */
  lemma LabelFromTemplate(e: ElementNode, t: ElementNode)
    requires e.tag == OldTag && e.children == [Element(t)]
    requires t.tag == "template" && t.attributes == [Attribute("#label", "")] && DumpAll(t.children) != ""
    ensures Fixed(e).attributes == RenameKeys(Renames, e.attributes) + [Attribute("label", DumpAll(t.children))]
  {
    SlotDumpsOneTemplate(t);
  }

  /** Labels accumulate: the label of two groups of children is the two labels joined. */
  lemma LabelsAccumulate(a: seq<Node>, b: seq<Node>)
    ensures SlotDumps(a + b) == SlotDumps(a) + SlotDumps(b)
  {
    SlotDumpsAppend(a, b);
  }

  /** Rewritten children are gone. */
  lemma FixedChildren(e: ElementNode)
    ensures ChildrenFrom(Fixed(e), e)
  {
  }
}
