/**
 * The sw-skeleton-bar rule (internal/admintwiglinter/fix_skeleton_bar.go):
 * only the tag changes, from `sw-skeleton-bar` to `mt-skeleton-bar`.
 */
module FixSkeletonBar {
  import opened Wrappers
  import opened Html
  import opened FixerCommon

  const OldTag := "sw-skeleton-bar"
  const NewTag := "mt-skeleton-bar"
  const Message := "sw-skeleton-bar is removed, use mt-skeleton-bar instead."
  /** Check leaves the line of its diagnostics at 0. */
  const WithLine := false

  /** The effect of the Fix callback on one element: a renamed tag and nothing else. */
  function Fixed(e: ElementNode): (r: ElementNode)
    ensures e.tag != OldTag ==> r == e
    ensures e.tag == OldTag ==> r == e.(tag := NewTag)
  {
    if e.tag != OldTag then e else e.(tag := NewTag)
  }

  /** The Fix callback. */
  method Fix(e: ElementNode) returns (r: ElementNode)
    ensures r == Fixed(e)
  {
    r := e;
    if r.tag == OldTag {
      r := r.(tag := NewTag);
    }
  }

  /** The children are not touched. */
  lemma FixedChildren(e: ElementNode)
    ensures ChildrenFrom(Fixed(e), e)
  {
  }
}
