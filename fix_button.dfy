/**
 * The sw-button rule (internal/admintwiglinter/fix_button.go): `sw-button`
 * becomes `mt-button`; a `variant` is translated by its lower-cased
 * value (`ghost` becomes a bare `ghost` attribute, `danger` becomes
 * `critical`, `ghost-danger` both, `contrast` and `context` go away), a
 * `router-link` becomes a `@click` handler, and the children stay.
 */
module FixButton {
  import opened Wrappers
  import opened Html
  import opened Text
  import opened FixerCommon

  const OldTag := "sw-button"
  const NewTag := "mt-button"
  const Message := "sw-button is removed, use mt-button instead. Please review conversion for variant and router-link."
  /** Check copies the element's line into its diagnostics. */
  const WithLine := true

  /** The `variant` values, lower-cased, that the rule rewrites or removes. */
  const Retired: set<string> := {"ghost", "danger", "ghost-danger", "contrast", "context"}

  /** The `@click` handler that replaces a `router-link` to `target`. */
  function RouterPush(target: string): string {
    "this.$router.push('" + target + "')"
  }

  /** One round of the attribute switch. */
  function MapAttr(a: Attribute): seq<Attribute> {
    if a.key == "variant" then
      var lower := ToLower(a.value);
      if lower == "ghost" || lower == "contrast" || lower == "context" then []
      else if lower == "danger" || lower == "ghost-danger" then [Attribute("variant", "critical")]
      else [a]
    else if a.key == "router-link" then [Attribute("@click", RouterPush(a.value))]
    else [a]
  }

  function NewAttrs(attrs: seq<Attribute>): seq<Attribute> {
    ConcatMap(MapAttr, attrs)
  }

  /** An attribute that sets the addGhost flag. */
  predicate MakesGhost(a: Attribute) {
    a.key == "variant" && (ToLower(a.value) == "ghost" || ToLower(a.value) == "ghost-danger")
  }

  predicate AddsGhost(attrs: seq<Attribute>) {
    exists j :: 0 <= j < |attrs| && MakesGhost(attrs[j])
  }

  /** The rewritten attribute list: the converted attributes, then a bare `ghost` when the flag is set. */
  function FixedAttributes(attrs: seq<Attribute>): seq<Attribute> {
    NewAttrs(attrs) + (if AddsGhost(attrs) then [Attribute("ghost", "")] else [])
  }

  /** The effect of the Fix callback on one element. */
  function Fixed(e: ElementNode): (r: ElementNode)
    ensures e.tag != OldTag ==> r == e
    ensures e.tag == OldTag ==> r.tag == NewTag && r.line == e.line && r.selfClosing == e.selfClosing && r.children == e.children
  {
    if e.tag != OldTag then e else e.(tag := NewTag, attributes := FixedAttributes(e.attributes))
  }

  lemma AddsGhostSnoc(attrs: seq<Attribute>, a: Attribute)
    ensures AddsGhost(attrs + [a]) <==> AddsGhost(attrs) || MakesGhost(a)
  {
    var s := attrs + [a];
    if MakesGhost(a) {
      assert s[|attrs|] == a;
    }
    if AddsGhost(attrs) {
      var j :| 0 <= j < |attrs| && MakesGhost(attrs[j]);
      assert s[j] == attrs[j];
    }
    if AddsGhost(s) {
      var j :| 0 <= j < |s| && MakesGhost(s[j]);
      if j < |attrs| {
        assert s[j] == attrs[j];
      }
    }
  }

  /** The attribute loop, with its addGhost flag. */
  method ConvertAttributes(attrs: seq<Attribute>) returns (newAttrs: seq<Attribute>, addGhost: bool)
    ensures newAttrs == NewAttrs(attrs)
    ensures addGhost == AddsGhost(attrs)
  {
    newAttrs := [];
    addGhost := false;
    for i := 0 to |attrs|
      invariant newAttrs == NewAttrs(attrs[..i])
      invariant addGhost == AddsGhost(attrs[..i])
    {
      var attr := attrs[i];
      assert attrs[..i + 1] == attrs[..i] + [attr];
      assert attrs[..i + 1][..i] == attrs[..i];
      AddsGhostSnoc(attrs[..i], attr);
      if attr.key == "variant" {
        var lower := ToLower(attr.value);
        if lower == "ghost" {
          addGhost := true;
        } else if lower == "danger" {
          newAttrs := newAttrs + [Attribute("variant", "critical")];
        } else if lower == "ghost-danger" {
          newAttrs := newAttrs + [Attribute("variant", "critical")];
          addGhost := true;
        } else if lower == "contrast" || lower == "context" {
        } else {
          newAttrs := newAttrs + [attr];
        }
      } else if attr.key == "router-link" {
        var val := attr.value;
        newAttrs := newAttrs + [Attribute("@click", "this.$router.push('" + val + "')")];
      } else {
        newAttrs := newAttrs + [attr];
      }
    }
    assert attrs[..|attrs|] == attrs;
  }

  /** The Fix callback. */
  method Fix(e: ElementNode) returns (r: ElementNode)
    ensures r == Fixed(e)
  {
    if e.tag != OldTag {
      return e;
    }
    var newAttrs, addGhost := ConvertAttributes(e.attributes);
    if addGhost {
      newAttrs := newAttrs + [Attribute("ghost", "")];
    }
    r := e.(tag := NewTag, attributes := newAttrs);
  }

  /** The attributes the switch neither handles nor produces. */
  predicate Untouched(a: Attribute) {
    a.key !in {"variant", "router-link", "@click"}
  }

  /** What the rewrite must not leave behind: a `router-link`, or a `variant` whose lower-cased value is retired. */
  predicate Stale(a: Attribute) {
    a.key == "router-link" || (a.key == "variant" && ToLower(a.value) in Retired)
  }

  /**
   * The attribute table: no `router-link` and no retired variant survives;
   * the attributes the switch does not handle keep their values and order.
   */
  lemma AttributeTable(attrs: seq<Attribute>)
    ensures forall i :: 0 <= i < |NewAttrs(attrs)| ==> !Stale(NewAttrs(attrs)[i])
    ensures Filter(Untouched, NewAttrs(attrs)) == Filter(Untouched, attrs)
  {
    forall a: Attribute ensures forall i :: 0 <= i < |MapAttr(a)| ==> !Stale(MapAttr(a)[i]) {
      MapAttrFresh(a);
    }
    ConcatMapAvoids(MapAttr, Stale, attrs);
    forall a: Attribute ensures Untouched(a) ==> MapAttr(a) == [a] {
    }
    forall a: Attribute, i | !Untouched(a) && 0 <= i < |MapAttr(a)| ensures !Untouched(MapAttr(a)[i]) {
    }
    ConcatMapKeeps(MapAttr, Untouched, attrs);
  }

  lemma CriticalFresh()
    ensures !Stale(Attribute("variant", "critical"))
  {
    ToLowerOfLower("critical");
  }

  lemma MapAttrFresh(a: Attribute)
    ensures forall i :: 0 <= i < |MapAttr(a)| ==> !Stale(MapAttr(a)[i])
  {
    if a.key == "variant" {
      var lower := ToLower(a.value);
      if lower == "danger" || lower == "ghost-danger" {
        CriticalFresh();
      } else if !(lower == "ghost" || lower == "contrast" || lower == "context") {
        assert lower !in Retired;
      }
    }
  }

  /** A `router-link` to `t` turns into the handler that pushes `t`, in its place. */
  lemma RouterLinkClick(before: seq<Attribute>, t: string, after: seq<Attribute>)
    ensures NewAttrs(before + [Attribute("router-link", t)] + after)
      == NewAttrs(before) + [Attribute("@click", RouterPush(t))] + NewAttrs(after)
  {
    ConcatMapAppend(MapAttr, before + [Attribute("router-link", t)], after);
    ConcatMapAppend(MapAttr, before, [Attribute("router-link", t)]);
    ConcatMapOne(MapAttr, Attribute("router-link", t));
  }

  /** The children are not touched. */
  lemma FixedChildren(e: ElementNode)
    ensures ChildrenFrom(Fixed(e), e)
  {
  }
}
