/**
 * The sw-select-field rule (internal/admintwiglinter/fix_select_field.go):
 * `sw-select-field` becomes `mt-select`, its attributes go through a key
 * switch, a label slot becomes a `label` attribute, `option` children
 * become a JSON `:options` attribute, and the children are dropped.
 */
module FixSelectField {
  import opened Wrappers
  import opened Html
  import opened Text
  import opened FixerCommon

  const OldTag := "sw-select-field"
  const NewTag := "mt-select"
  const Message := "sw-select-field is removed, use mt-select instead. Review conversion for props, slots and events."
  /** Check copies the element's line into its diagnostics. */
  const WithLine := true

  /** The plain cases of the attribute switch. */
  const Renames: KeyTable := map[
    ":value" := Some(":model-value"),
    "v-model:value" := Some("v-model"),
    ":aside" := None,
    "@update:value" := Some("@update:model-value")]

  /** Every key the switch handles or produces; attributes with any other key are passed through. */
  const Touched: set<string> := {":value", "v-model:value", ":aside", "@update:value", ":options", ":model-value", "v-model", "@update:model-value"}

  const LabelKeys: set<string> := {"#label", "v-slot:label"}

  /** An `:options` value with every `name` replaced by `label`, then every `id` by `value`. */
  function ConvertOptions(v: string): string {
    ReplaceAll(ReplaceAll(v, "name", "label"), "id", "value")
  }

  /** One round of the attribute switch. */
  function MapAttr(a: Attribute): seq<Attribute> {
    if a.key == ":options" then [Attribute(":options", ConvertOptions(a.value))] else Rename(Renames, a)
  }

  function NewAttrs(attrs: seq<Attribute>): seq<Attribute> {
    ConcatMap(MapAttr, attrs)
  }

  /** The map built for one `option` child: its trimmed text and, when it has one, its last `value`. */
  datatype OptionObject = OptionObject(text: string, value: Option<string>)

  function OptionOf(c: Node): seq<OptionObject> {
    if c.Element? && c.el.tag == "option" then [OptionObject(TrimmedDumps(c.el.children), LastValue(c.el.attributes, "value"))] else []
  }

  function Options(cs: seq<Node>): seq<OptionObject> {
    ConcatMap(OptionOf, cs)
  }

  /** json.Marshal of one option map: the keys in sorted order, "value" only when present. */
  function OptionJson(o: OptionObject): string {
    JsonObject([JsonMember("label", o.text)] + match o.value case None => [] case Some(v) => [JsonMember("value", v)])
  }

  function OptionsJson(os: seq<OptionObject>): string {
    JsonArray(seq(|os|, i requires 0 <= i < |os| => OptionJson(os[i])))
  }

  /** A child the children loop keeps: neither a label template nor an `option`. */
  predicate Kept(c: Node) {
    !IsSlot(c, LabelKeys, true) && !(c.Element? && c.el.tag == "option")
  }

  /** The effect of the Fix callback on one element. */
  function Fixed(e: ElementNode): (r: ElementNode)
    ensures e.tag != OldTag ==> r == e
    ensures e.tag == OldTag ==> r.tag == NewTag && r.line == e.line && r.selfClosing == e.selfClosing && r.children == []
  {
    if e.tag != OldTag then e else e.(tag := NewTag, attributes := FixedAttributes(e.attributes, e.children), children := [])
  }

  /**
   * The rewritten attribute list: the converted attributes, then `label`
   * when the label text is not empty, then the `:options` built from the
   * `option` children when there was no `:options` and there are options.
   */
  function FixedAttributes(attrs: seq<Attribute>, cs: seq<Node>): seq<Attribute> {
    var opts := Options(cs);
    NewAttrs(attrs) + LabelIfAny("label", LastSlotText(cs, LabelKeys, true))
    + (if !HasKey(attrs, {":options"}) && |opts| > 0 then [Attribute(":options", OptionsJson(opts))] else [])
  }

  /** The attribute loop, with its optionsSet flag. */
  method ConvertAttributes(attrs: seq<Attribute>) returns (newAttrs: seq<Attribute>, optionsSet: bool)
    ensures newAttrs == NewAttrs(attrs)
    ensures optionsSet == HasKey(attrs, {":options"})
  {
    newAttrs := [];
    optionsSet := false;
    for i := 0 to |attrs|
      invariant newAttrs == NewAttrs(attrs[..i])
      invariant optionsSet == HasKey(attrs[..i], {":options"})
    {
      var attr := attrs[i];
      assert attrs[..i + 1] == attrs[..i] + [attr];
      assert attrs[..i + 1][..i] == attrs[..i];
      HasKeySnoc(attrs[..i], attr, {":options"});
      if attr.key == ":value" {
        newAttrs := newAttrs + [Attribute(":model-value", attr.value)];
      } else if attr.key == "v-model:value" {
        newAttrs := newAttrs + [Attribute("v-model", attr.value)];
      } else if attr.key == ":aside" {
      } else if attr.key == ":options" {
        var converted := ReplaceAll(attr.value, "name", "label");
        converted := ReplaceAll(converted, "id", "value");
        newAttrs := newAttrs + [Attribute(":options", converted)];
        optionsSet := true;
      } else if attr.key == "@update:value" {
        newAttrs := newAttrs + [Attribute("@update:model-value", attr.value)];
      } else {
        newAttrs := newAttrs + [attr];
      }
    }
    assert attrs[..|attrs|] == attrs;
  }

  /** The children loop: label slots and `option` children are consumed, the rest kept. */
  method ConvertChildren(cs: seq<Node>) returns (labelText: string, optionObjects: seq<OptionObject>, remaining: seq<Node>)
    ensures labelText == LastSlotText(cs, LabelKeys, true)
    ensures optionObjects == Options(cs)
    ensures remaining == Filter(Kept, cs)
  {
    labelText := "";
    optionObjects := [];
    remaining := [];
    for i := 0 to |cs|
      invariant labelText == LastSlotText(cs[..i], LabelKeys, true)
      invariant optionObjects == Options(cs[..i])
      invariant remaining == Filter(Kept, cs[..i])
    {
      var child := cs[i];
      assert cs[..i + 1][..i] == cs[..i];
      if child.Element? {
        var elem := child.el;
        if elem.tag == "template" {
          var found := FindFirstKey(elem.attributes, LabelKeys);
          if found.Some? {
            labelText := TrimmedContent(elem.children);
            continue;
          }
        }
        if elem.tag == "option" {
          var value := FindLastValue(elem.attributes, "value");
          var text := TrimmedContent(elem.children);
          optionObjects := optionObjects + [OptionObject(text, value)];
          continue;
        }
      }
      remaining := remaining + [child];
    }
    assert cs[..|cs|] == cs;
  }

  /** The Fix callback. */
  method Fix(e: ElementNode) returns (r: ElementNode)
    ensures r == Fixed(e)
  {
    if e.tag != OldTag {
      return e;
    }
    var newAttrs, optionsSet := ConvertAttributes(e.attributes);
    var labelText, optionObjects, remaining := ConvertChildren(e.children);
    var attributes := newAttrs;
    if labelText != "" {
      attributes := attributes + [Attribute("label", labelText)];
    }
    if !optionsSet && |optionObjects| > 0 {
      var bytes := OptionsJson(optionObjects);
      attributes := attributes + [Attribute(":options", bytes)];
    }
    assert attributes == FixedAttributes(e.attributes, e.children);
    // the kept children are overwritten by the final clear
    r := e.(tag := NewTag, attributes := attributes, children := []);
  }

  predicate Untouched(a: Attribute) {
    a.key !in Touched
  }

  predicate IsAside(a: Attribute) {
    a.key == ":aside"
  }

  /**
   * The attribute table: no `:value`, `v-model:value`, `:aside` or
   * `@update:value` survives; the attributes the switch neither handles
   * nor produces keep their values and order; exactly the `:aside`
   * attributes are lost.
   */
  lemma AttributeTable(attrs: seq<Attribute>)
    ensures forall i :: 0 <= i < |NewAttrs(attrs)| ==> NewAttrs(attrs)[i].key !in Renames
    ensures Filter(Untouched, NewAttrs(attrs)) == Filter(Untouched, attrs)
    ensures |NewAttrs(attrs)| == |attrs| - CountIf(IsAside, attrs)
  {
    ConcatMapAvoids(MapAttr, (a: Attribute) => a.key in Renames, attrs);
    ConcatMapKeeps(MapAttr, Untouched, attrs);
    ConcatMapLength(MapAttr, IsAside, attrs);
  }

  /** Without `name` or `id` in it, an `:options` value is kept as it is. */
  lemma ConvertOptionsPlain(v: string)
    requires !Contains(v, "name") && !Contains(v, "id")
    ensures ConvertOptions(v) == v
  {
    ReplaceAllAbsent(v, "name", "label");
    ReplaceAllAbsent(v, "id", "value");
  }

  /**
   * The label slot: when the last `#label`/`v-slot:label` template has
   * non-empty text, the rewritten element carries `label` with that text
   * right after the converted attributes.
   */
  lemma LabelFromLastSlot(e: ElementNode, i: int)
    requires e.tag == OldTag && 0 <= i < |e.children|
    requires IsSlot(e.children[i], LabelKeys, true) && NoSlotFrom(e.children, i + 1, LabelKeys, true)
    requires TrimmedDumps(e.children[i].el.children) != ""
    ensures |Fixed(e).attributes| > |NewAttrs(e.attributes)|
    ensures Fixed(e).attributes[|NewAttrs(e.attributes)|] == Attribute("label", TrimmedDumps(e.children[i].el.children))
  {
    LastSlotTextWins(e.children, i, LabelKeys, true);
  }

  /**
   * The `option` children: with no `:options` attribute and at least one
   * `option`, the last attribute is `:options` holding the JSON array of
   * the options in document order.
   */
  lemma OptionsFromChildren(e: ElementNode)
    requires e.tag == OldTag && !HasKey(e.attributes, {":options"}) && |Options(e.children)| > 0
    ensures Fixed(e).attributes[|Fixed(e).attributes| - 1] == Attribute(":options", OptionsJson(Options(e.children)))
  {
  }

  /** Rewritten children are gone, so every rank is below the element's. */
  lemma FixedChildren(e: ElementNode)
    ensures ChildrenFrom(Fixed(e), e)
  {
  }
}
