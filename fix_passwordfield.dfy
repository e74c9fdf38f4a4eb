/**
 * The sw-password-field rule (internal/admintwiglinter/fix_passwordfield.go):
 * `sw-password-field` becomes `mt-password-field`, its attributes go
 * through a key switch, the last `#label` and `#hint` element children
 * become `label` and `hint` attributes (their first `Label`/`Hint`
 * lower-cased), and the children are dropped.
 */
module FixPasswordField {
  import opened Wrappers
  import opened Html
  import opened Text
  import opened FixerCommon

  const OldTag := "sw-password-field"
  const NewTag := "mt-password-field"
  const Message := "sw-password-field is removed, use mt-password-field instead. Please review conversion for label/hint properties."
  /** Check copies the element's line into its diagnostics. */
  const WithLine := true

  /** The plain cases of the attribute switch. */
  const Renames: KeyTable := map[
    "value" := Some("modelValue"),
    "v-model:value" := Some("v-model"),
    "isInvalid" := None,
    "@update:value" := Some("@update:modelValue"),
    "@base-field-mounted" := None]

  /** Every key the switch handles or produces; attributes with any other key are passed through. */
  const Touched: set<string> := {"value", "modelValue", "v-model:value", "v-model", "size", "isInvalid", "@update:value", "@update:modelValue", "@base-field-mounted"}

  const LabelKeys: set<string> := {"#label"}
  const HintKeys: set<string> := {"#hint"}

  /** One round of the attribute switch: a `size` of `medium` becomes `default`. */
  function MapAttr(a: Attribute): seq<Attribute> {
    if a.key == "size" then [Attribute("size", if a.value == "medium" then "default" else a.value)] else Rename(Renames, a)
  }

  function NewAttrs(attrs: seq<Attribute>): seq<Attribute> {
    ConcatMap(MapAttr, attrs)
  }

  /** The label: the text of the last `#label` element child with its first `Label` lower-cased. */
  function LabelText(cs: seq<Node>): string {
    ReplaceFirst(LastSlotText(cs, LabelKeys, false), "Label", "label")
  }

  /** The hint: the text of the last `#hint` element child with its first `Hint` lower-cased. */
  function HintText(cs: seq<Node>): string {
    ReplaceFirst(LastSlotText(cs, HintKeys, false), "Hint", "hint")
  }

  /** The rewritten attribute list: the converted attributes, then `label`, then `hint`, each when not empty. */
  function FixedAttributes(attrs: seq<Attribute>, cs: seq<Node>): seq<Attribute> {
    NewAttrs(attrs) + LabelIfAny("label", LabelText(cs)) + LabelIfAny("hint", HintText(cs))
  }

  /** The effect of the Fix callback on one element. */
  function Fixed(e: ElementNode): (r: ElementNode)
    ensures e.tag != OldTag ==> r == e
    ensures e.tag == OldTag ==> r.tag == NewTag && r.line == e.line && r.selfClosing == e.selfClosing && r.children == []
  {
    if e.tag != OldTag then e else e.(tag := NewTag, attributes := FixedAttributes(e.attributes, e.children), children := [])
  }

  method ConvertAttributes(attrs: seq<Attribute>) returns (newAttrs: seq<Attribute>)
    ensures newAttrs == NewAttrs(attrs)
  {
    newAttrs := [];
    for i := 0 to |attrs|
      invariant newAttrs == NewAttrs(attrs[..i])
    {
      var attr := attrs[i];
      assert attrs[..i + 1][..i] == attrs[..i];
      if attr.key == "value" {
        newAttrs := newAttrs + [Attribute("modelValue", attr.value)];
      } else if attr.key == "v-model:value" {
        newAttrs := newAttrs + [Attribute("v-model", attr.value)];
      } else if attr.key == "size" {
        newAttrs := newAttrs + [Attribute("size", if attr.value == "medium" then "default" else attr.value)];
      } else if attr.key == "isInvalid" {
      } else if attr.key == "@update:value" {
        newAttrs := newAttrs + [Attribute("@update:modelValue", attr.value)];
      } else if attr.key == "@base-field-mounted" {
      } else {
        newAttrs := newAttrs + [attr];
      }
    }
    assert attrs[..|attrs|] == attrs;
  }

  /** The attribute loop over one element child: each `#label` key resets the label, each `#hint` key the hint. */
  method ReadSlotsOf(elem: ElementNode, label0: string, hint0: string) returns (labelText: string, hintText: string)
    ensures labelText == if HasKey(elem.attributes, LabelKeys) then ReplaceFirst(TrimmedDumps(elem.children), "Label", "label") else label0
    ensures hintText == if HasKey(elem.attributes, HintKeys) then ReplaceFirst(TrimmedDumps(elem.children), "Hint", "hint") else hint0
  {
    labelText, hintText := label0, hint0;
    for j := 0 to |elem.attributes|
      invariant labelText == if HasKey(elem.attributes[..j], LabelKeys) then ReplaceFirst(TrimmedDumps(elem.children), "Label", "label") else label0
      invariant hintText == if HasKey(elem.attributes[..j], HintKeys) then ReplaceFirst(TrimmedDumps(elem.children), "Hint", "hint") else hint0
    {
      assert elem.attributes[..j + 1] == elem.attributes[..j] + [elem.attributes[j]];
      HasKeySnoc(elem.attributes[..j], elem.attributes[j], LabelKeys);
      HasKeySnoc(elem.attributes[..j], elem.attributes[j], HintKeys);
      if elem.attributes[j].key == "#label" {
        var content := TrimmedContent(elem.children);
        labelText := ReplaceFirst(content, "Label", "label");
      }
      if elem.attributes[j].key == "#hint" {
        var content := TrimmedContent(elem.children);
        hintText := ReplaceFirst(content, "Hint", "hint");
      }
    }
    assert elem.attributes[..|elem.attributes|] == elem.attributes;
  }

  /** The children loop for the label and the hint. */
  method ConvertChildren(cs: seq<Node>) returns (labelText: string, hintText: string)
    ensures labelText == LabelText(cs) && hintText == HintText(cs)
  {
    labelText, hintText := "", "";
    for i := 0 to |cs|
      invariant labelText == LabelText(cs[..i]) && hintText == HintText(cs[..i])
    {
      assert cs[..i + 1][..i] == cs[..i];
      if cs[i].Element? {
        labelText, hintText := ReadSlotsOf(cs[i].el, labelText, hintText);
      }
    }
    assert cs[..|cs|] == cs;
  }

  /** The Fix callback. */
  method Fix(e: ElementNode) returns (r: ElementNode)
    ensures r == Fixed(e)
  {
    if e.tag != OldTag {
      return e;
    }
    var attributes := ConvertAttributes(e.attributes);
    var labelText, hintText := ConvertChildren(e.children);
    if labelText != "" {
      attributes := attributes + [Attribute("label", labelText)];
    }
    if hintText != "" {
      attributes := attributes + [Attribute("hint", hintText)];
    }
    assert attributes == FixedAttributes(e.attributes, e.children);
    r := e.(tag := NewTag, attributes := attributes, children := []);
  }

  predicate Untouched(a: Attribute) {
    a.key !in Touched
  }

  predicate IsDropped(a: Attribute) {
    a.key in {"isInvalid", "@base-field-mounted"}
  }

  /**
   * The attribute table: no renamed or removed key survives; the
   * attributes the switch neither handles nor produces keep their values
   * and order; exactly `isInvalid` and `@base-field-mounted` are lost.
   */
  lemma AttributeTable(attrs: seq<Attribute>)
    ensures forall i :: 0 <= i < |NewAttrs(attrs)| ==> NewAttrs(attrs)[i].key !in Renames
    ensures Filter(Untouched, NewAttrs(attrs)) == Filter(Untouched, attrs)
    ensures |NewAttrs(attrs)| == |attrs| - CountIf(IsDropped, attrs)
  {
    ConcatMapAvoids(MapAttr, (a: Attribute) => a.key in Renames, attrs);
    forall a: Attribute ensures Untouched(a) ==> MapAttr(a) == [a] {
      MapAttrKeeps(a);
    }
    forall a: Attribute, i | !Untouched(a) && 0 <= i < |MapAttr(a)| ensures !Untouched(MapAttr(a)[i]) {
      MapAttrKeeps(a);
    }
    ConcatMapKeeps(MapAttr, Untouched, attrs);
    ConcatMapLength(MapAttr, IsDropped, attrs);
  }

  lemma MapAttrKeeps(a: Attribute)
    ensures Untouched(a) ==> MapAttr(a) == [a]
    ensures forall i :: !Untouched(a) && 0 <= i < |MapAttr(a)| ==> !Untouched(MapAttr(a)[i])
  {
  }

  /**
   * The label slot: the last `#label` element child whose text has no
   * `Label` in it gives `label` with that text, right after the converted
   * attributes.
   */
  lemma LabelFromLastSlot(e: ElementNode, i: int)
    requires e.tag == OldTag && 0 <= i < |e.children|
    requires IsSlot(e.children[i], LabelKeys, false) && NoSlotFrom(e.children, i + 1, LabelKeys, false)
    requires TrimmedDumps(e.children[i].el.children) != "" && !Contains(TrimmedDumps(e.children[i].el.children), "Label")
    ensures |Fixed(e).attributes| > |NewAttrs(e.attributes)|
    ensures Fixed(e).attributes[|NewAttrs(e.attributes)|] == Attribute("label", TrimmedDumps(e.children[i].el.children))
  {
    LastSlotTextWins(e.children, i, LabelKeys, false);
    ReplaceFirstAbsent(TrimmedDumps(e.children[i].el.children), "Label", "label");
  }

  /** Without `#label` and `#hint` element children the attributes are just the converted ones. */
  lemma NoSlots(e: ElementNode)
    requires e.tag == OldTag && NoSlotFrom(e.children, 0, LabelKeys, false) && NoSlotFrom(e.children, 0, HintKeys, false)
    ensures Fixed(e).attributes == NewAttrs(e.attributes)
  {
    LastSlotTextNone(e.children, LabelKeys, false);
    LastSlotTextNone(e.children, HintKeys, false);
  }

  /** Rewritten children are gone. */
  lemma FixedChildren(e: ElementNode)
    ensures ChildrenFrom(Fixed(e), e)
  {
  }
}
