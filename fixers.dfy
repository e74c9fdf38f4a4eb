/**
 * The component rules of internal/admintwiglinter as one family: each rule
 * is a FixerKind, its Check reports its old tag in pre-order, and its Fix
 * is TraverseNode with the rule's per-element rewrite. Every rule gives
 * the same answer to Supports, so the engine takes the selected rules as
 * an ordered list.
 */
module Fixers {
  import opened Html
  import opened Text
  import opened FixerCommon
  import FixAlert
  import FixButton
  import FixCard
  import FixCheckboxField
  import FixColorpicker
  import FixDatepicker
  import FixEmailField
  import FixExternalLink
  import FixIcon
  import FixNumberField
  import FixPasswordField
  import FixProgressBar
  import FixSelectField
  import FixSkeletonBar
  import FixSwitch
  import FixTabs
  import FixTextField
  import FixTextareaField
  import FixUrlField
  import FixPopover
  datatype FixerKind =
    | Alert
    | Button
    | Card
    | CheckboxField
    | Colorpicker
    | Datepicker
    | EmailField
    | ExternalLink
    | Icon
    | NumberField
    | PasswordField
    | ProgressBar
    | SelectField
    | SkeletonBar
    | Switch
    | Tabs
    | TextField
    | TextareaField
    | UrlField
    | Popover

  /** The tag the rule reports and rewrites. */
  function OldTag(k: FixerKind): string {
    match k
    case Alert => FixAlert.OldTag
    case Button => FixButton.OldTag
    case Card => FixCard.OldTag
    case CheckboxField => FixCheckboxField.OldTag
    case Colorpicker => FixColorpicker.OldTag
    case Datepicker => FixDatepicker.OldTag
    case EmailField => FixEmailField.OldTag
    case ExternalLink => FixExternalLink.OldTag
    case Icon => FixIcon.OldTag
    case NumberField => FixNumberField.OldTag
    case PasswordField => FixPasswordField.OldTag
    case ProgressBar => FixProgressBar.OldTag
    case SelectField => FixSelectField.OldTag
    case SkeletonBar => FixSkeletonBar.OldTag
    case Switch => FixSwitch.OldTag
    case Tabs => FixTabs.OldTag
    case TextField => FixTextField.OldTag
    case TextareaField => FixTextareaField.OldTag
    case UrlField => FixUrlField.OldTag
    case Popover => FixPopover.OldTag
  }

  /** The tag the rule rewrites it to. */
  function NewTag(k: FixerKind): string {
    match k
    case Alert => FixAlert.NewTag
    case Button => FixButton.NewTag
    case Card => FixCard.NewTag
    case CheckboxField => FixCheckboxField.NewTag
    case Colorpicker => FixColorpicker.NewTag
    case Datepicker => FixDatepicker.NewTag
    case EmailField => FixEmailField.NewTag
    case ExternalLink => FixExternalLink.NewTag
    case Icon => FixIcon.NewTag
    case NumberField => FixNumberField.NewTag
    case PasswordField => FixPasswordField.NewTag
    case ProgressBar => FixProgressBar.NewTag
    case SelectField => FixSelectField.NewTag
    case SkeletonBar => FixSkeletonBar.NewTag
    case Switch => FixSwitch.NewTag
    case Tabs => FixTabs.NewTag
    case TextField => FixTextField.NewTag
    case TextareaField => FixTextareaField.NewTag
    case UrlField => FixUrlField.NewTag
    case Popover => FixPopover.NewTag
  }

  function Message(k: FixerKind): string {
    match k
    case Alert => FixAlert.Message
    case Button => FixButton.Message
    case Card => FixCard.Message
    case CheckboxField => FixCheckboxField.Message
    case Colorpicker => FixColorpicker.Message
    case Datepicker => FixDatepicker.Message
    case EmailField => FixEmailField.Message
    case ExternalLink => FixExternalLink.Message
    case Icon => FixIcon.Message
    case NumberField => FixNumberField.Message
    case PasswordField => FixPasswordField.Message
    case ProgressBar => FixProgressBar.Message
    case SelectField => FixSelectField.Message
    case SkeletonBar => FixSkeletonBar.Message
    case Switch => FixSwitch.Message
    case Tabs => FixTabs.Message
    case TextField => FixTextField.Message
    case TextareaField => FixTextareaField.Message
    case UrlField => FixUrlField.Message
    case Popover => FixPopover.Message
  }

  /** Whether the rule's diagnostics carry the element's line. */
  function WithLine(k: FixerKind): bool {
    match k
    case Alert => FixAlert.WithLine
    case Button => FixButton.WithLine
    case Card => FixCard.WithLine
    case CheckboxField => FixCheckboxField.WithLine
    case Colorpicker => FixColorpicker.WithLine
    case Datepicker => FixDatepicker.WithLine
    case EmailField => FixEmailField.WithLine
    case ExternalLink => FixExternalLink.WithLine
    case Icon => FixIcon.WithLine
    case NumberField => FixNumberField.WithLine
    case PasswordField => FixPasswordField.WithLine
    case ProgressBar => FixProgressBar.WithLine
    case SelectField => FixSelectField.WithLine
    case SkeletonBar => FixSkeletonBar.WithLine
    case Switch => FixSwitch.WithLine
    case Tabs => FixTabs.WithLine
    case TextField => FixTextField.WithLine
    case TextareaField => FixTextareaField.WithLine
    case UrlField => FixUrlField.WithLine
    case Popover => FixPopover.WithLine
  }

  /** The rule's rewrite of one element, the callback its Fix hands to TraverseNode. */
  function Fixed(k: FixerKind): ElementNode -> ElementNode {
    match k
    case Alert => FixAlert.Fixed
    case Button => FixButton.Fixed
    case Card => FixCard.Fixed
    case CheckboxField => FixCheckboxField.Fixed
    case Colorpicker => FixColorpicker.Fixed
    case Datepicker => FixDatepicker.Fixed
    case EmailField => FixEmailField.Fixed
    case ExternalLink => FixExternalLink.Fixed
    case Icon => FixIcon.Fixed
    case NumberField => FixNumberField.Fixed
    case PasswordField => FixPasswordField.Fixed
    case ProgressBar => FixProgressBar.Fixed
    case SelectField => FixSelectField.Fixed
    case SkeletonBar => FixSkeletonBar.Fixed
    case Switch => FixSwitch.Fixed
    case Tabs => FixTabs.Fixed
    case TextField => FixTextField.Fixed
    case TextareaField => FixTextareaField.Fixed
    case UrlField => FixUrlField.Fixed
    case Popover => FixPopover.Fixed
  }

  /**
   * Supports of every rule: the version satisfies the Shopware 6.7
   * constraint, which is passed in as `shopware67`.
   */
  predicate Supports<V>(k: FixerKind, shopware67: V -> bool, v: V) {
    shopware67(v)
  }

  /** The rules of a list that support version `v`, in list order. */
  function Supporting<V>(ks: seq<FixerKind>, shopware67: V -> bool, v: V): (r: seq<FixerKind>)
    ensures shopware67(v) ==> r == ks
    ensures !shopware67(v) ==> r == []
    decreases |ks|
  {
    if ks == [] then []
    else (if Supports(ks[0], shopware67, v) then [ks[0]] else []) + Supporting(ks[1..], shopware67, v)
  }

  // ------------------------------------------------------ lawful rules

  /** The tag the card rule brings in. */
  const Badge := "sw-ai-copilot-badge"

  /**
   * What the engine relies on from a rule with rewrite `f`, old tag `o`
   * and new tag `n`: the old tag is an `sw-` tag other than the badge and
   * the new one an `mt-` tag, other elements are left alone, the old tag
   * becomes the new one, the traversal terminates under Rank, and no
   * `sw-` tag but the badge is brought into a subtree that lacks it.
   */
  ghost predicate Lawful(f: ElementNode -> ElementNode, o: string, n: string) {
    && HasPrefix(o, "sw-") && HasPrefix(n, "mt-") && o != Badge
    && (forall e: ElementNode :: e.tag != o ==> f(e) == e)
    && (forall e: ElementNode :: e.tag == o ==> f(e).tag == n)
    && Decreasing(f, Rank)
    && (forall t :: HasPrefix(t, "sw-") && t != Badge ==> KeepsAbsent(f, t))
  }

  /** A rule that renames its tag and keeps only children the element had is lawful. */
  lemma KeepingRuleLawful(f: ElementNode -> ElementNode, o: string, n: string)
    requires HasPrefix(o, "sw-") && HasPrefix(n, "mt-") && o != Badge
    requires forall e: ElementNode :: e.tag != o ==> f(e) == e
    requires forall e: ElementNode :: e.tag == o ==> f(e).tag == n && ChildrenFrom(f(e), e)
    ensures Lawful(f, o, n)
  {
    forall e: ElementNode, i | 0 <= i < |f(e).children| && f(e).children[i].Element?
      ensures Rank(f(e).children[i].el) < Rank(e)
    {
      KeptChildrenRankBelow(e, f(e));
    }
    forall t | HasPrefix(t, "sw-") && t != Badge ensures KeepsAbsent(f, t) {
      forall x | NoTag(PreOrderNode(Element(x)), t)
        ensures NoTag(PreOrderNode(Element(f(x))), t)
      {
        if x.tag == o {
          assert t[..3] != n[..3];
          RewriteKeepsAbsent(x, f(x), t);
        }
      }
    }
  }

  /** The card rule is lawful: its title slot holds only the badge. */
  lemma CardLawful()
    ensures Lawful(FixCard.Fixed, FixCard.OldTag, FixCard.NewTag)
  {
    forall e: ElementNode, i | 0 <= i < |FixCard.Fixed(e).children| && FixCard.Fixed(e).children[i].Element?
      ensures Rank(FixCard.Fixed(e).children[i].el) < Rank(e)
    {
      FixCard.FixedChildrenRanked(e);
    }
    forall t | HasPrefix(t, "sw-") && t != Badge ensures KeepsAbsent(FixCard.Fixed, t) {
      forall x | NoTag(PreOrderNode(Element(x)), t)
        ensures NoTag(PreOrderNode(Element(FixCard.Fixed(x))), t)
      {
        if x.tag == FixCard.OldTag {
          assert HasPrefix(FixCard.NewTag, "mt-") && HasPrefix("slot", "slo");
          FixCard.FixedKeepsAbsent(x, t);
        }
      }
    }
  }

  lemma AlertLawful()
    ensures Lawful(FixAlert.Fixed, FixAlert.OldTag, FixAlert.NewTag)
  {
    forall e ensures ChildrenFrom(FixAlert.Fixed(e), e) {
      FixAlert.FixedChildren(e);
    }
    KeepingRuleLawful(FixAlert.Fixed, FixAlert.OldTag, FixAlert.NewTag);
  }

  lemma ButtonLawful()
    ensures Lawful(FixButton.Fixed, FixButton.OldTag, FixButton.NewTag)
  {
    forall e ensures ChildrenFrom(FixButton.Fixed(e), e) {
      FixButton.FixedChildren(e);
    }
    KeepingRuleLawful(FixButton.Fixed, FixButton.OldTag, FixButton.NewTag);
  }

  lemma CheckboxFieldLawful()
    ensures Lawful(FixCheckboxField.Fixed, FixCheckboxField.OldTag, FixCheckboxField.NewTag)
  {
    forall e ensures ChildrenFrom(FixCheckboxField.Fixed(e), e) {
      FixCheckboxField.FixedChildren(e);
    }
    KeepingRuleLawful(FixCheckboxField.Fixed, FixCheckboxField.OldTag, FixCheckboxField.NewTag);
  }

  lemma ColorpickerLawful()
    ensures Lawful(FixColorpicker.Fixed, FixColorpicker.OldTag, FixColorpicker.NewTag)
  {
    forall e ensures ChildrenFrom(FixColorpicker.Fixed(e), e) {
      FixColorpicker.FixedChildren(e);
    }
    KeepingRuleLawful(FixColorpicker.Fixed, FixColorpicker.OldTag, FixColorpicker.NewTag);
  }

  lemma DatepickerLawful()
    ensures Lawful(FixDatepicker.Fixed, FixDatepicker.OldTag, FixDatepicker.NewTag)
  {
    forall e ensures ChildrenFrom(FixDatepicker.Fixed(e), e) {
      FixDatepicker.FixedChildren(e);
    }
    KeepingRuleLawful(FixDatepicker.Fixed, FixDatepicker.OldTag, FixDatepicker.NewTag);
  }

  lemma EmailFieldLawful()
    ensures Lawful(FixEmailField.Fixed, FixEmailField.OldTag, FixEmailField.NewTag)
  {
    forall e ensures ChildrenFrom(FixEmailField.Fixed(e), e) {
      FixEmailField.FixedChildren(e);
    }
    KeepingRuleLawful(FixEmailField.Fixed, FixEmailField.OldTag, FixEmailField.NewTag);
  }

  lemma ExternalLinkLawful()
    ensures Lawful(FixExternalLink.Fixed, FixExternalLink.OldTag, FixExternalLink.NewTag)
  {
    forall e ensures ChildrenFrom(FixExternalLink.Fixed(e), e) {
      FixExternalLink.FixedChildren(e);
    }
    KeepingRuleLawful(FixExternalLink.Fixed, FixExternalLink.OldTag, FixExternalLink.NewTag);
  }

  lemma IconLawful()
    ensures Lawful(FixIcon.Fixed, FixIcon.OldTag, FixIcon.NewTag)
  {
    forall e ensures ChildrenFrom(FixIcon.Fixed(e), e) {
      FixIcon.FixedChildren(e);
    }
    KeepingRuleLawful(FixIcon.Fixed, FixIcon.OldTag, FixIcon.NewTag);
  }

  lemma NumberFieldLawful()
    ensures Lawful(FixNumberField.Fixed, FixNumberField.OldTag, FixNumberField.NewTag)
  {
    forall e ensures ChildrenFrom(FixNumberField.Fixed(e), e) {
      FixNumberField.FixedChildren(e);
    }
    KeepingRuleLawful(FixNumberField.Fixed, FixNumberField.OldTag, FixNumberField.NewTag);
  }

  lemma PasswordFieldLawful()
    ensures Lawful(FixPasswordField.Fixed, FixPasswordField.OldTag, FixPasswordField.NewTag)
  {
    forall e ensures ChildrenFrom(FixPasswordField.Fixed(e), e) {
      FixPasswordField.FixedChildren(e);
    }
    KeepingRuleLawful(FixPasswordField.Fixed, FixPasswordField.OldTag, FixPasswordField.NewTag);
  }

  lemma ProgressBarLawful()
    ensures Lawful(FixProgressBar.Fixed, FixProgressBar.OldTag, FixProgressBar.NewTag)
  {
    forall e ensures ChildrenFrom(FixProgressBar.Fixed(e), e) {
      FixProgressBar.FixedChildren(e);
    }
    KeepingRuleLawful(FixProgressBar.Fixed, FixProgressBar.OldTag, FixProgressBar.NewTag);
  }

  lemma SelectFieldLawful()
    ensures Lawful(FixSelectField.Fixed, FixSelectField.OldTag, FixSelectField.NewTag)
  {
    forall e ensures ChildrenFrom(FixSelectField.Fixed(e), e) {
      FixSelectField.FixedChildren(e);
    }
    KeepingRuleLawful(FixSelectField.Fixed, FixSelectField.OldTag, FixSelectField.NewTag);
  }

  lemma SkeletonBarLawful()
    ensures Lawful(FixSkeletonBar.Fixed, FixSkeletonBar.OldTag, FixSkeletonBar.NewTag)
  {
    forall e ensures ChildrenFrom(FixSkeletonBar.Fixed(e), e) {
      FixSkeletonBar.FixedChildren(e);
    }
    KeepingRuleLawful(FixSkeletonBar.Fixed, FixSkeletonBar.OldTag, FixSkeletonBar.NewTag);
  }

  lemma SwitchLawful()
    ensures Lawful(FixSwitch.Fixed, FixSwitch.OldTag, FixSwitch.NewTag)
  {
    forall e ensures ChildrenFrom(FixSwitch.Fixed(e), e) {
      FixSwitch.FixedChildren(e);
    }
    KeepingRuleLawful(FixSwitch.Fixed, FixSwitch.OldTag, FixSwitch.NewTag);
  }

  lemma TabsLawful()
    ensures Lawful(FixTabs.Fixed, FixTabs.OldTag, FixTabs.NewTag)
  {
    forall e ensures ChildrenFrom(FixTabs.Fixed(e), e) {
      FixTabs.FixedChildren(e);
    }
    KeepingRuleLawful(FixTabs.Fixed, FixTabs.OldTag, FixTabs.NewTag);
  }

  lemma TextFieldLawful()
    ensures Lawful(FixTextField.Fixed, FixTextField.OldTag, FixTextField.NewTag)
  {
    forall e ensures ChildrenFrom(FixTextField.Fixed(e), e) {
      FixTextField.FixedChildren(e);
    }
    KeepingRuleLawful(FixTextField.Fixed, FixTextField.OldTag, FixTextField.NewTag);
  }

  lemma TextareaFieldLawful()
    ensures Lawful(FixTextareaField.Fixed, FixTextareaField.OldTag, FixTextareaField.NewTag)
  {
    forall e ensures ChildrenFrom(FixTextareaField.Fixed(e), e) {
      FixTextareaField.FixedChildren(e);
    }
    KeepingRuleLawful(FixTextareaField.Fixed, FixTextareaField.OldTag, FixTextareaField.NewTag);
  }

  lemma UrlFieldLawful()
    ensures Lawful(FixUrlField.Fixed, FixUrlField.OldTag, FixUrlField.NewTag)
  {
    forall e ensures ChildrenFrom(FixUrlField.Fixed(e), e) {
      FixUrlField.FixedChildren(e);
    }
    KeepingRuleLawful(FixUrlField.Fixed, FixUrlField.OldTag, FixUrlField.NewTag);
  }

  lemma PopoverLawful()
    ensures Lawful(FixPopover.Fixed, FixPopover.OldTag, FixPopover.NewTag)
  {
    forall e ensures ChildrenFrom(FixPopover.Fixed(e), e) {
      FixPopover.FixedChildren(e);
    }
    KeepingRuleLawful(FixPopover.Fixed, FixPopover.OldTag, FixPopover.NewTag);
  }

  /** Every rule of the family is lawful. */
  lemma RuleLawful(k: FixerKind)
    ensures Lawful(Fixed(k), OldTag(k), NewTag(k))
  {
    match k
    case Alert => AlertLawful();
    case Button => ButtonLawful();
    case Card => CardLawful();
    case CheckboxField => CheckboxFieldLawful();
    case Colorpicker => ColorpickerLawful();
    case Datepicker => DatepickerLawful();
    case EmailField => EmailFieldLawful();
    case ExternalLink => ExternalLinkLawful();
    case Icon => IconLawful();
    case NumberField => NumberFieldLawful();
    case PasswordField => PasswordFieldLawful();
    case ProgressBar => ProgressBarLawful();
    case SelectField => SelectFieldLawful();
    case SkeletonBar => SkeletonBarLawful();
    case Switch => SwitchLawful();
    case Tabs => TabsLawful();
    case TextField => TextFieldLawful();
    case TextareaField => TextareaFieldLawful();
    case UrlField => UrlFieldLawful();
    case Popover => PopoverLawful();
  }

  /** A lawful rule's traversal leaves no element with its old tag. */
  lemma LawfulClears(f: ElementNode -> ElementNode, o: string, n: string, ns: seq<Node>)
    requires Lawful(f, o, n)
    ensures NoTag(PreOrder(Traverse(ns, f, Rank)), o)
  {
    forall x ensures f(x).tag != o {
      assert o[..3] != n[..3];
    }
    TraverseAvoidsTag(ns, f, Rank, o);
  }

  /** A lawful rule's traversal leaves a tree without its old tag as it is. */
  lemma LawfulIdentity(f: ElementNode -> ElementNode, o: string, n: string, ns: seq<Node>)
    requires Lawful(f, o, n) && NoTag(PreOrder(ns), o)
    ensures Traverse(ns, f, Rank) == ns
  {
    assert FixesAll(PreOrder(ns), f);
    TraverseIdentity(ns, f, Rank);
  }

  // ------------------------------------------------------ Check and Fix

  /** The diagnostics of the rule's Check on a parsed file. */
  function Check(k: FixerKind, ns: seq<Node>): seq<CheckError> {
    Diagnose(PreOrder(ns), OldTag(k), Message(k), WithLine(k))
  }

  /** The tree after the rule's Fix. */
  function FixTree(k: FixerKind, ns: seq<Node>): seq<Node> {
    RuleLawful(k);
    Traverse(ns, Fixed(k), Rank)
  }

  /** The rule's Fix leaves no element with its old tag. */
  lemma FixClears(k: FixerKind, ns: seq<Node>)
    ensures NoTag(PreOrder(FixTree(k, ns)), OldTag(k))
  {
    RuleLawful(k);
    LawfulClears(Fixed(k), OldTag(k), NewTag(k), ns);
  }

  /** A tree without the rule's old tag is left as it is by its Fix. */
  lemma FixWithoutTag(k: FixerKind, ns: seq<Node>)
    requires NoTag(PreOrder(ns), OldTag(k))
    ensures FixTree(k, ns) == ns
  {
    RuleLawful(k);
    LawfulIdentity(Fixed(k), OldTag(k), NewTag(k), ns);
  }

  /** The rule's Check reports nothing exactly when the tree has no element with its old tag. */
  lemma CheckEmpty(k: FixerKind, ns: seq<Node>)
    ensures Check(k, ns) == [] <==> NoTag(PreOrder(ns), OldTag(k))
  {
    DiagnoseEmpty(PreOrder(ns), OldTag(k), Message(k), WithLine(k));
  }

  /** After its Fix, the rule's Check reports nothing. */
  lemma CheckAfterFix(k: FixerKind, ns: seq<Node>)
    ensures Check(k, FixTree(k, ns)) == []
  {
    FixClears(k, ns);
    CheckEmpty(k, FixTree(k, ns));
  }

  /** A file the rule's Check has nothing to say about is left as it is by its Fix. */
  lemma FixWithoutMatches(k: FixerKind, ns: seq<Node>)
    requires Check(k, ns) == []
    ensures FixTree(k, ns) == ns
  {
    CheckEmpty(k, ns);
    FixWithoutTag(k, ns);
  }

  /** Fix is idempotent. */
  lemma FixIdempotent(k: FixerKind, ns: seq<Node>)
    ensures FixTree(k, FixTree(k, ns)) == FixTree(k, ns)
  {
    FixClears(k, ns);
    FixWithoutTag(k, FixTree(k, ns));
  }

  /** The rule's Fix calls its rewrite once on every element it leaves in the tree, in pre-order. */
  lemma FixVisitsPreOrder(k: FixerKind, ns: seq<Node>)
    ensures Decreasing(Fixed(k), Rank) && Mirrors(Visits(ns, Fixed(k), Rank), PreOrder(FixTree(k, ns)), Fixed(k))
  {
    RuleLawful(k);
    TraverseVisitsPreOrder(ns, Fixed(k), Rank);
  }

  /** The selected rules' Fixes, in list order, on the same tree. */
  function FixAll(ks: seq<FixerKind>, ns: seq<Node>): seq<Node>
    decreases |ks|
  {
    if ks == [] then ns else FixTree(ks[|ks| - 1], FixAll(ks[..|ks| - 1], ns))
  }

  /** A rule's Fix leaves a tree without another rule's old tag without it. */
  lemma FixKeepsAbsent(j: FixerKind, k: FixerKind, ns: seq<Node>)
    requires NoTag(PreOrder(ns), OldTag(k))
    ensures NoTag(PreOrder(FixTree(j, ns)), OldTag(k))
  {
    RuleLawful(j);
    RuleLawful(k);
    TraverseKeepsAbsent(ns, Fixed(j), Rank, OldTag(k));
  }

  /** After all the selected Fixes, no selected rule's old tag is left. */
  lemma {:induction false} FixAllClears(ks: seq<FixerKind>, ns: seq<Node>)
    ensures forall i :: 0 <= i < |ks| ==> NoTag(PreOrder(FixAll(ks, ns)), OldTag(ks[i]))
    decreases |ks|
  {
    if ks != [] {
      var init := ks[..|ks| - 1];
      var last := ks[|ks| - 1];
      FixAllClears(init, ns);
      forall i | 0 <= i < |ks| ensures NoTag(PreOrder(FixAll(ks, ns)), OldTag(ks[i])) {
        if i == |ks| - 1 {
          FixClears(last, FixAll(init, ns));
        } else {
          assert ks[i] == init[i];
          FixKeepsAbsent(last, ks[i], FixAll(init, ns));
        }
      }
    }
  }

  /** After all the selected Fixes, none of the selected rules' Checks reports anything. */
  lemma CheckAfterFixAll(ks: seq<FixerKind>, ns: seq<Node>)
    ensures forall i :: 0 <= i < |ks| ==> Check(ks[i], FixAll(ks, ns)) == []
  {
    FixAllClears(ks, ns);
    forall i | 0 <= i < |ks| ensures Check(ks[i], FixAll(ks, ns)) == [] {
      CheckEmpty(ks[i], FixAll(ks, ns));
    }
  }

  // ------------------------------------------------------------ methods

  /** The rule's Fix: TraverseNode with the rule's rewrite as the callback. */
  method Fix(k: FixerKind, ns: seq<Node>) returns (r: seq<Node>)
    ensures r == FixTree(k, ns)
  {
    RuleLawful(k);
    r := TraverseNode(ns, Fixed(k), Rank);
  }

  /** The rule's Check. */
  method RunCheck(k: FixerKind, ns: seq<Node>) returns (errs: seq<CheckError>)
    ensures errs == Check(k, ns)
  {
    errs := CollectDiagnostics(ns, OldTag(k), Message(k), WithLine(k));
  }
}
