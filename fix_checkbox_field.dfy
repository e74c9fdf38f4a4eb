/**
 * The sw-checkbox-field rule (internal/admintwiglinter/fix_checkbox_field.go):
 * `sw-checkbox-field` becomes `mt-checkbox`, its attributes go through a
 * key switch, a label template becomes a `label` attribute, a hint
 * template is dropped, and the other children stay.
 */
module FixCheckboxField {
  import opened Wrappers
  import opened Html
  import opened FixerCommon

  const OldTag := "sw-checkbox-field"
  const NewTag := "mt-checkbox"
  const Message := "sw-checkbox-field is removed, use mt-checkbox instead. Review conversion for props, events and slots."
  /** Check leaves the line of its diagnostics at 0. */
  const WithLine := false

  /** The plain cases of the attribute switch. */
  const Renames: KeyTable := map[
    ":value" := Some(":checked"), "v-model" := Some("v-model:checked"),
    "id" := None, "ghostValue" := None, "padded" := None,
    "@update:value" := Some("@update:checked")]

  /** Every key the switch handles or produces. */
  const Touched: set<string> := {":value", ":checked", "v-model", "v-model:checked", "id", "ghostValue", "padded", "partlyChecked", "partial", "@update:value", "@update:checked"}

  /** The keys that end the scan of a template's attributes, and the one among them that is a label. */
  const SlotKeys: set<string> := {"#label", "v-slot:label", "v-slot:hint", "#hint"}
  const LabelKeys: set<string> := {"#label", "v-slot:label"}

  /** One round of the attribute switch: `partlyChecked` becomes a bare `partial`. */
  function MapAttr(a: Attribute): seq<Attribute> {
    if a.key == "partlyChecked" then [Attribute("partial", "")] else Rename(Renames, a)
  }

  function NewAttrs(attrs: seq<Attribute>): seq<Attribute> {
    ConcatMap(MapAttr, attrs)
  }

  /** A child the children loop keeps: anything but a template whose first slot key is a label or hint key. */
  predicate Kept(c: Node) {
    SlotKey(c, SlotKeys).None?
  }

  /** The rewritten attribute list: the converted attributes, then `label` when the label text is not empty. */
  function FixedAttributes(attrs: seq<Attribute>, cs: seq<Node>): seq<Attribute> {
    NewAttrs(attrs) + LabelIfAny("label", LastLabelText(cs, SlotKeys, LabelKeys))
  }

  /** The effect of the Fix callback on one element. */
  function Fixed(e: ElementNode): (r: ElementNode)
    ensures e.tag != OldTag ==> r == e
    ensures e.tag == OldTag ==> r.tag == NewTag && r.line == e.line && r.selfClosing == e.selfClosing
  {
    if e.tag != OldTag then e
    else e.(tag := NewTag, attributes := FixedAttributes(e.attributes, e.children), children := Filter(Kept, e.children))
  }

  method ConvertAttributes(attrs: seq<Attribute>) returns (newAttrs: seq<Attribute>)
    ensures newAttrs == NewAttrs(attrs)
  {
    newAttrs := [];
    for i := 0 to |attrs|
      invariant newAttrs == NewAttrs(attrs[..i])
    {
      var attr := attrs[i];
      assert attrs[..i + 1][..i] == attrs[..i];
      if attr.key == ":value" {
        newAttrs := newAttrs + [Attribute(":checked", attr.value)];
      } else if attr.key == "v-model" {
        newAttrs := newAttrs + [Attribute("v-model:checked", attr.value)];
      } else if attr.key in {"id", "ghostValue", "padded"} {
      } else if attr.key == "partlyChecked" {
        newAttrs := newAttrs + [Attribute("partial", "")];
      } else if attr.key == "@update:value" {
        newAttrs := newAttrs + [Attribute("@update:checked", attr.value)];
      } else {
        newAttrs := newAttrs + [attr];
      }
    }
    assert attrs[..|attrs|] == attrs;
  }

  /** The children loop: a slot template sets the label (a label key) or not (a hint key) and is not kept. */
  method ConvertChildren(cs: seq<Node>) returns (labelText: string, otherChildren: seq<Node>)
    ensures labelText == LastLabelText(cs, SlotKeys, LabelKeys)
    ensures otherChildren == Filter(Kept, cs)
  {
    labelText := "";
    otherChildren := [];
    for i := 0 to |cs|
      invariant labelText == LastLabelText(cs[..i], SlotKeys, LabelKeys)
      invariant otherChildren == Filter(Kept, cs[..i])
    {
      var child := cs[i];
      assert cs[..i + 1][..i] == cs[..i];
      if child.Element? && child.el.tag == "template" {
        var elem := child.el;
        var found := FindFirstKey(elem.attributes, SlotKeys);
        if found.Some? {
          if found.value in LabelKeys {
            labelText := TrimmedContent(elem.children);
          }
          continue;
        }
      }
      otherChildren := otherChildren + [child];
    }
    assert cs[..|cs|] == cs;
  }

  /** The Fix callback. */
  method Fix(e: ElementNode) returns (r: ElementNode)
    ensures r == Fixed(e)
  {
    if e.tag != OldTag {
      return e;
    }
    var attributes := ConvertAttributes(e.attributes);
    var labelText, otherChildren := ConvertChildren(e.children);
    if labelText != "" {
      attributes := attributes + [Attribute("label", labelText)];
    }
    assert attributes == FixedAttributes(e.attributes, e.children);
    r := e.(tag := NewTag, attributes := attributes, children := otherChildren);
  }

  predicate Untouched(a: Attribute) {
    a.key !in Touched
  }

  predicate IsSource(a: Attribute) {
    a.key in Renames || a.key == "partlyChecked"
  }

  predicate IsDropped(a: Attribute) {
    a.key in {"id", "ghostValue", "padded"}
  }

  /**
   * The attribute table: none of the handled keys survives; the other
   * attributes keep their values and order; exactly `id`,
   * `ghostValue` and `padded` are lost.
   */
  lemma AttributeTable(attrs: seq<Attribute>)
    ensures forall i :: 0 <= i < |NewAttrs(attrs)| ==> !IsSource(NewAttrs(attrs)[i])
    ensures Filter(Untouched, NewAttrs(attrs)) == Filter(Untouched, attrs)
    ensures |NewAttrs(attrs)| == |attrs| - CountIf(IsDropped, attrs)
  {
    forall a: Attribute ensures forall i :: 0 <= i < |MapAttr(a)| ==> !IsSource(MapAttr(a)[i]) {
      MapAttrAvoids(a);
    }
    ConcatMapAvoids(MapAttr, IsSource, attrs);
    forall a: Attribute ensures Untouched(a) ==> MapAttr(a) == [a] {
      MapAttrKeeps(a);
    }
    forall a: Attribute, i | !Untouched(a) && 0 <= i < |MapAttr(a)| ensures !Untouched(MapAttr(a)[i]) {
      MapAttrKeeps(a);
    }
    ConcatMapKeeps(MapAttr, Untouched, attrs);
    ConcatMapLength(MapAttr, IsDropped, attrs);
  }

  lemma MapAttrAvoids(a: Attribute)
    ensures forall i :: 0 <= i < |MapAttr(a)| ==> !IsSource(MapAttr(a)[i])
  {
  }

  lemma MapAttrKeeps(a: Attribute)
    ensures Untouched(a) ==> MapAttr(a) == [a]
    ensures forall i :: !Untouched(a) && 0 <= i < |MapAttr(a)| ==> !Untouched(MapAttr(a)[i])
  {
  }

  /**
   * The label slot: the last template whose first slot key is a label key
   * gives the `label` attribute, right after the converted attributes.
   */
  lemma LabelFromLastSlot(e: ElementNode, i: int)
    requires e.tag == OldTag && 0 <= i < |e.children|
    requires IsLabelSlot(e.children[i], SlotKeys, LabelKeys)
    requires forall k :: i < k < |e.children| ==> !IsLabelSlot(e.children[k], SlotKeys, LabelKeys)
    requires TrimmedDumps(e.children[i].el.children) != ""
    ensures |Fixed(e).attributes| == |NewAttrs(e.attributes)| + 1
    ensures Fixed(e).attributes[|NewAttrs(e.attributes)|] == Attribute("label", TrimmedDumps(e.children[i].el.children))
  {
    LastLabelTextWins(e.children, i, SlotKeys, LabelKeys);
  }

  /** The kept children are children of the element, and none of them is a label or hint template. */
  lemma FixedChildren(e: ElementNode)
    ensures ChildrenFrom(Fixed(e), e)
    ensures e.tag == OldTag ==> forall i :: 0 <= i < |Fixed(e).children| ==> Kept(Fixed(e).children[i])
  {
    FilterMembers(Kept, e.children);
  }
}
