/**
 * The sw-alert rule (internal/admintwiglinter/fix_alert.go): `sw-alert`
 * becomes `mt-banner` and the `variant` values `success`, `error` and
 * `warning` become `positive`, `critical` and `attention`; everything else
 * stays.
 */
module FixAlert {
  import opened Wrappers
  import opened Html
  import opened FixerCommon

  const OldTag := "sw-alert"
  const NewTag := "mt-banner"
  const Message := "sw-alert is removed, use mt-banner instead. Please review conversion for variant changes."
  /** Check copies the element's line into its diagnostics. */
  const WithLine := true

  /** The variant translation; `info` and unknown variants are kept. */
  const Variants: map<string, string> := map["success" := "positive", "error" := "critical", "warning" := "attention"]

  function NewVariant(v: string): string {
    if v in Variants then Variants[v] else v
  }

  /** One round of the attribute loop. */
  function MapAttr(a: Attribute): seq<Attribute> {
    if a.key == "variant" then [Attribute("variant", NewVariant(a.value))] else [a]
  }

  function NewAttrs(attrs: seq<Attribute>): seq<Attribute> {
    ConcatMap(MapAttr, attrs)
  }

  /** The effect of the Fix callback on one element. */
  function Fixed(e: ElementNode): (r: ElementNode)
    ensures e.tag != OldTag ==> r == e
    ensures e.tag == OldTag ==> r.tag == NewTag && r.line == e.line && r.selfClosing == e.selfClosing && r.children == e.children
  {
    if e.tag != OldTag then e else e.(tag := NewTag, attributes := NewAttrs(e.attributes))
  }

  method ConvertAttributes(attrs: seq<Attribute>) returns (newAttrs: seq<Attribute>)
    ensures newAttrs == NewAttrs(attrs)
  {
    newAttrs := [];
    for i := 0 to |attrs|
      invariant newAttrs == NewAttrs(attrs[..i])
    {
      var attr := attrs[i];
      assert attrs[..i + 1][..i] == attrs[..i];
      if attr.key == "variant" {
        if attr.value == "success" {
          newAttrs := newAttrs + [Attribute("variant", "positive")];
        } else if attr.value == "error" {
          newAttrs := newAttrs + [Attribute("variant", "critical")];
        } else if attr.value == "warning" {
          newAttrs := newAttrs + [Attribute("variant", "attention")];
        } else {
          newAttrs := newAttrs + [attr];
        }
      } else {
        newAttrs := newAttrs + [attr];
      }
    }
    assert attrs[..|attrs|] == attrs;
  }

  /** The Fix callback. */
  method Fix(e: ElementNode) returns (r: ElementNode)
    ensures r == Fixed(e)
  {
    if e.tag != OldTag {
      return e;
    }
    var newAttrs := ConvertAttributes(e.attributes);
    r := e.(tag := NewTag, attributes := newAttrs);
  }

  predicate NotVariant(a: Attribute) {
    a.key != "variant"
  }

  predicate OldVariant(a: Attribute) {
    a.key == "variant" && a.value in Variants
  }

  /**
   * The attribute table: one attribute out for each in, no `success`,
   * `error` or `warning` variant left, and every attribute other than
   * `variant` kept in order.
   */
  lemma AttributeTable(attrs: seq<Attribute>)
    ensures |NewAttrs(attrs)| == |attrs|
    ensures forall i :: 0 <= i < |NewAttrs(attrs)| ==> !OldVariant(NewAttrs(attrs)[i])
    ensures Filter(NotVariant, NewAttrs(attrs)) == Filter(NotVariant, attrs)
  {
    ConcatMapOneEach(MapAttr, attrs);
    ConcatMapAvoids(MapAttr, OldVariant, attrs);
    ConcatMapKeeps(MapAttr, NotVariant, attrs);
  }

  /** The translation is idempotent: a second run changes no variant. */
  lemma NewVariantIdempotent(v: string)
    ensures NewVariant(NewVariant(v)) == NewVariant(v)
  {
  }

  /** The children are not touched. */
  lemma FixedChildren(e: ElementNode)
    ensures ChildrenFrom(Fixed(e), e)
  {
  }
}
