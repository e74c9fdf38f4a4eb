/**
 * The sw-progress-bar rule (internal/admintwiglinter/fix_progress_bar.go): `sw-progress-bar`
 * becomes `mt-progress-bar` and three keys are renamed in place; the children stay.
 */
module FixProgressBar {
  import opened Wrappers
  import opened Html
  import opened FixerCommon

  const OldTag := "sw-progress-bar"
  const NewTag := "mt-progress-bar"
  const Message := "sw-progress-bar is removed, use mt-progress-bar instead."
  /** Check copies the element's line into its diagnostics. */
  const WithLine := true

  /** The keys the rename loop rewrites in place. */
  const Renames: map<string, string> := map["value" := "modelValue", "v-model:value" := "v-model", "@update:value" := "@update:modelValue"]

  /** The effect of the Fix callback on one element. */
  function Fixed(e: ElementNode): (r: ElementNode)
    ensures e.tag != OldTag ==> r == e
    ensures e.tag == OldTag ==> r.tag == NewTag && r.line == e.line && r.selfClosing == e.selfClosing && r.children == e.children
  {
    if e.tag != OldTag then e else e.(tag := NewTag, attributes := RenameKeys(Renames, e.attributes))
  }

  /** The Fix callback: the attribute keys are rewritten in the element's own attribute array. */
  method Fix(e: ElementNode) returns (r: ElementNode)
    ensures r == Fixed(e)
  {
    if e.tag != OldTag {
      return e;
    }
    var a := new Attribute[|e.attributes|](i requires 0 <= i < |e.attributes| => e.attributes[i]);
    assert a[..] == e.attributes;
    RenameKeysInPlace(a, Renames);
    var attributes := a[..];
    r := e.(tag := NewTag, attributes := attributes);
  }

  /**
   * The rename: same length and values, every attribute with another key
   * in its place, and none of the renamed keys left.
   */
  lemma AttributeTable(attrs: seq<Attribute>)
    ensures |RenameKeys(Renames, attrs)| == |attrs|
    ensures forall i :: 0 <= i < |attrs| ==> RenameKeys(Renames, attrs)[i].value == attrs[i].value
    ensures forall i :: 0 <= i < |attrs| && attrs[i].key !in Renames ==> RenameKeys(Renames, attrs)[i] == attrs[i]
    ensures forall i :: 0 <= i < |attrs| ==> RenameKeys(Renames, attrs)[i].key !in Renames
  {
    RenameKeysTable(Renames, attrs);
  }

  /** The children are not touched. */
  lemma FixedChildren(e: ElementNode)
    ensures ChildrenFrom(Fixed(e), e)
  {
  }
}
