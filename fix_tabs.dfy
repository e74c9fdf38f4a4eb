/**
 * The sw-tabs rule (internal/admintwiglinter/fix_tabs.go): `sw-tabs`
 * becomes `mt-tabs`; a default slot of `sw-tabs-item` children becomes an
 * `:items` attribute, a content slot becomes a `@new-item-active` handler,
 * and the other children stay.
 */
module FixTabs {
  import opened Wrappers
  import opened Html
  import opened Text
  import opened FixerCommon

  const OldTag := "sw-tabs"
  const NewTag := "mt-tabs"
  const Message := "sw-tabs is removed, use mt-tabs instead. Review conversion for slots and properties."
  /** Check leaves the line of its diagnostics at 0. */
  const WithLine := false

  const Renames: KeyTable := map["is-vertical" := Some("vertical"), "align-right" := None]

  /** Every key the switch handles or produces. */
  const Touched: set<string> := {"is-vertical", "align-right", "vertical"}

  const DefaultKeys: set<string> := {"#default", "v-slot:default"}
  const ContentKeys: set<string> := {"#content", "v-slot:content"}

  function NewAttrs(attrs: seq<Attribute>): seq<Attribute> {
    ConcatMap((a: Attribute) => Rename(Renames, a), attrs)
  }

  /** One `sw-tabs-item`, as the map the rule marshals. */
  datatype TabItem = TabItem(text: string, name: string)

  function ItemOf(c: Node): seq<TabItem> {
    if c.Element? && c.el.tag == "sw-tabs-item" then
      [TabItem(TrimmedDumps(c.el.children), match LastValue(c.el.attributes, "name") case None => "" case Some(n) => n)]
    else []
  }

  /** The slot a child stands for: the first default or content key of a `template`. */
  function SlotKind(c: Node): Option<string> {
    if c.Element? && c.el.tag == "template" then FirstKeyIn(c.el.attributes, DefaultKeys + ContentKeys) else None
  }

  /** The items of a default-slot child. */
  function ItemsOf(c: Node): seq<TabItem> {
    if SlotKind(c).Some? && SlotKind(c).value in DefaultKeys then ConcatMap(ItemOf, c.el.children) else []
  }

  function Items(cs: seq<Node>): seq<TabItem> {
    ConcatMap(ItemsOf, cs)
  }

  predicate IsContentSlot(c: Node) {
    SlotKind(c).Some? && SlotKind(c).value in ContentKeys
  }

  predicate NotSlot(c: Node) {
    SlotKind(c).None?
  }

  /** json.Marshal of one item map (sorted keys). */
  function ItemJson(t: TabItem): string {
    JsonObject([JsonMember("label", t.text), JsonMember("name", t.name)])
  }

  /** The `:items` value: the JSON array with every `"` replaced by `'`. */
  function ItemsValue(ts: seq<TabItem>): string {
    ReplaceAll(JsonArray(seq(|ts|, i requires 0 <= i < |ts| => ItemJson(ts[i]))), "\"", "'")
  }

  /** The rewritten attribute list: converted attributes, then `:items`, then the handler. */
  function FixedAttributes(attrs: seq<Attribute>, cs: seq<Node>): seq<Attribute> {
    NewAttrs(attrs)
    + (if |Items(cs)| > 0 then [Attribute(":items", ItemsValue(Items(cs)))] else [])
    + (if CountIf(IsContentSlot, cs) > 0 then [Attribute("@new-item-active", "setActiveItem")] else [])
  }

  /** The effect of the Fix callback on one element. */
  function Fixed(e: ElementNode): (r: ElementNode)
    ensures e.tag != OldTag ==> r == e
    ensures e.tag == OldTag ==> r.tag == NewTag && r.line == e.line && r.selfClosing == e.selfClosing
  {
    if e.tag != OldTag then e
    else e.(tag := NewTag, attributes := FixedAttributes(e.attributes, e.children), children := Filter(NotSlot, e.children))
  }

  method ConvertAttributes(attrs: seq<Attribute>) returns (newAttrs: seq<Attribute>)
    ensures newAttrs == NewAttrs(attrs)
  {
    newAttrs := [];
    for i := 0 to |attrs|
      invariant newAttrs == NewAttrs(attrs[..i])
    {
      var attr := attrs[i];
      assert attrs[..i + 1][..i] == attrs[..i];
      if attr.key == "is-vertical" {
        newAttrs := newAttrs + [Attribute("vertical", attr.value)];
      } else if attr.key == "align-right" {
      } else {
        newAttrs := newAttrs + [attr];
      }
    }
    assert attrs[..|attrs|] == attrs;
  }

  /** The loop over a default slot's children. */
  method CollectItems(cs: seq<Node>) returns (items: seq<TabItem>)
    ensures items == ConcatMap(ItemOf, cs)
  {
    items := [];
    for i := 0 to |cs|
      invariant items == ConcatMap(ItemOf, cs[..i])
    {
      assert cs[..i + 1][..i] == cs[..i];
      if cs[i].Element? && cs[i].el.tag == "sw-tabs-item" {
        var itemElem := cs[i].el;
        var found := FindLastValue(itemElem.attributes, "name");
        var itemName := if found.Some? then found.value else "";
        var itemLabel := TrimmedContent(itemElem.children);
        items := items + [TabItem(itemLabel, itemName)];
      }
    }
    assert cs[..|cs|] == cs;
  }

  /** The children loop: slot templates are consumed, everything else kept in order. */
  method ConvertChildren(cs: seq<Node>) returns (items: seq<TabItem>, contentSlotFound: bool, remaining: seq<Node>)
    ensures items == Items(cs)
    ensures contentSlotFound == (CountIf(IsContentSlot, cs) > 0)
    ensures remaining == Filter(NotSlot, cs)
  {
    items := [];
    contentSlotFound := false;
    remaining := [];
    for i := 0 to |cs|
      invariant items == Items(cs[..i])
      invariant contentSlotFound == (CountIf(IsContentSlot, cs[..i]) > 0)
      invariant remaining == Filter(NotSlot, cs[..i])
    {
      var child := cs[i];
      assert cs[..i + 1][..i] == cs[..i];
      if child.Element? && child.el.tag == "template" {
        var tpl := child.el;
        var kind := FindFirstKey(tpl.attributes, DefaultKeys + ContentKeys);
        if kind.Some? {
          if kind.value in DefaultKeys {
            var more := CollectItems(tpl.children);
            items := items + more;
          } else {
            contentSlotFound := true;
          }
          continue;
        }
      }
      remaining := remaining + [child];
    }
    assert cs[..|cs|] == cs;
  }

  /** The Fix callback. */
  method Fix(e: ElementNode) returns (r: ElementNode)
    ensures r == Fixed(e)
  {
    if e.tag != OldTag {
      return e;
    }
    var attributes := ConvertAttributes(e.attributes);
    var defaultItems, contentSlotFound, remainingChildren := ConvertChildren(e.children);
    if |defaultItems| > 0 {
      var bytes := JsonArray(seq(|defaultItems|, i requires 0 <= i < |defaultItems| => ItemJson(defaultItems[i])));
      var itemsVal := ReplaceAll(bytes, "\"", "'");
      attributes := attributes + [Attribute(":items", itemsVal)];
    }
    if contentSlotFound {
      attributes := attributes + [Attribute("@new-item-active", "setActiveItem")];
    }
    assert attributes == FixedAttributes(e.attributes, e.children);
    r := e.(tag := NewTag, attributes := attributes, children := remainingChildren);
  }

  predicate Untouched(a: Attribute) {
    a.key !in Touched
  }

  predicate IsAlignRight(a: Attribute) {
    a.key == "align-right"
  }

  /**
   * The attribute table: `is-vertical` becomes `vertical` with its value,
   * `align-right` is dropped, the rest keep their values and order.
   */
  lemma AttributeTable(attrs: seq<Attribute>)
    ensures forall i :: 0 <= i < |NewAttrs(attrs)| ==> NewAttrs(attrs)[i].key !in Renames
    ensures Filter(Untouched, NewAttrs(attrs)) == Filter(Untouched, attrs)
    ensures |NewAttrs(attrs)| == |attrs| - CountIf(IsAlignRight, attrs)
  {
    var f := (a: Attribute) => Rename(Renames, a);
    ConcatMapAvoids(f, (a: Attribute) => a.key in Renames, attrs);
    ConcatMapKeeps(f, Untouched, attrs);
    ConcatMapLength(f, IsAlignRight, attrs);
  }

  /** The `:items` value holds no double quote, so its Dump stays inside the attribute's quotes. */
  lemma ItemsValueUnquoted(ts: seq<TabItem>)
    ensures forall i :: 0 <= i < |ItemsValue(ts)| ==> ItemsValue(ts)[i] != '"'
  {
    ReplaceAllByte(JsonArray(seq(|ts|, i requires 0 <= i < |ts| => ItemJson(ts[i]))), '"', '\'');
  }

  /** The kept children are children of the element, in their original order. */
  lemma FixedChildren(e: ElementNode)
    ensures ChildrenFrom(Fixed(e), e)
  {
    FilterMembers(NotSlot, e.children);
  }
}
