# extension-verifier: the admin Twig linter, in Dafny

This project models the part of Shopware's extension verifier that
upgrades old administration templates. An extension's `.twig` files are
parsed by a small HTML parser into a tree of raw text and elements. About
twenty component rules each report an old `sw-*` component and rewrite it
into its `mt-*` successor. The AdminTwigLinter tool runs the rules over
each file. It either adds their diagnostics to the check's results or
writes the rewritten tree back to the file.

The model also covers the code around the linter:

- the result list and its ignore filter;
- the CI report (GitHub annotations and the Markdown step summary);
- the `--only` tool filter;
- the two ways the range of Shopware releases to check against is
  worked out.

Modules follow the Go files:

- `Html` covers the node types, `Dump` and `TraverseNode`.
- `HtmlParserSpec` and `HtmlParser` cover the parser.
  - `HtmlParserSpec` is the cursor semantics, written as functions.
  - `HtmlParser` is the `Parser` class whose loop methods are proved to
    compute them.
- There is one module per rule file, `FixAlert` … `FixPopover`.
  - Each holds the per-element rewrite `Fixed` (the callback handed to
    `TraverseNode`).
  - Each holds a `Fix` method whose loops are proved to compute that
    rewrite.
  - Each proves lemmas about the rule's attribute and slot tables.
- `FixerCommon` holds the loops and specifications the rules share.
- `Fixers` gathers the rules as one `FixerKind` family.
  - It proves what the engine relies on: after a rule's Fix, its Check
    finds nothing; Fix is idempotent; Fix is the identity where Check is
    silent.
- `AdminTwig` is the per-file engine for Check and Fix.
- `ToolResult` and `MainResult` are the two result lists.
- `Reporter` and `CmdShared` cover the CI report and `filterTools`.
- `VersionRange`, `ToolExtension` and `MainExtension` cover the version
  range.

Go strings are byte strings. A Dafny `char` here stands for one byte.
`unicode.IsLetter` on a byte is modelled as the ASCII and Latin-1
letters. `strings.TrimSpace` and `strings.ToLower` are modelled on ASCII.

Code and model differ in two places that matter:

- The rules copy `node.Line` into their diagnostics, but the Go
  `ElementNode` struct in `internal/html/parser.go` declares no `Line`
  field, and the parser records no position. The model gives every
  element a `line` that the parser sets to 0, and that is what its
  diagnostics report.
- The popover rule deletes from the slice it is ranging over. This is
  described under Findings.

Several operations are written as plain functions that carry no
contract of their own. The lemmas in the table below state what they
compute:

- Html.DumpNode, Html.DumpElement and Html.DumpAll
  (`internal/html/parser.go:26-56`): Html.DumpAllAppend,
  HtmlRoundTrip.DumpParses and HtmlRoundTrip.QuoteInValueBreaksRoundTrip.
- HtmlParserSpec.ParseNodes and HtmlParserSpec.ParseChildren
  (`internal/html/parser.go:98-144, 213-264`): the `Nodes*`, `Children*`,
  `*WellFormed` and `*Refused` lemmas and HtmlRoundTrip.NodesAt and
  HtmlRoundTrip.ChildrenAt.
- Fixers.Check, Fixers.FixTree and Fixers.FixAll
  (`internal/tool/admin_twig.go:46-56, 97-101`): Fixers.CheckEmpty,
  Fixers.CheckAfterFix, Fixers.FixIdempotent, Fixers.FixAllClears and
  Fixers.CheckAfterFixAll.
- AdminTwig.Ext, AdminTwig.ReportedPath, AdminTwig.FileResults,
  AdminTwig.CheckOutcome and AdminTwig.FixOutcomeOf
  (`internal/tool/admin_twig.go:31-58, 82-109`): AdminTwig.ExtMeaning,
  AdminTwig.ReportedPathRelative, AdminTwig.FileResultsShape,
  AdminTwig.FileResultsEmpty, and the methods AdminTwig.CheckFile and
  AdminTwig.FixFile, whose contracts are these functions.
- Reporter.Markdown and Reporter.Annotation (`reporter.go:23-51`):
  Reporter.MarkdownLines and Reporter.AnnotationShape.
- CmdShared.Filtered, CmdShared.Requested and CmdShared.Quote
  (`cmd_shared.go:11-37`): CmdShared.FilteredOk, CmdShared.FilteredErr,
  CmdShared.RequestedAt and CmdShared.QuotePlain.
- ToolResult.Suppresses and ToolResult.Kept (`internal/tool/result.go:35-60`):
  ToolResult.ShouldKeep, ToolResult.KeptMembers and
  ToolResult.KeptSubsequence.
- VersionRange.MatchingVersions and VersionRange.SortBy
  (`internal/tool/extension.go:41-60`): VersionRange.MatchingVersionsMeaning,
  VersionRange.SortByPerm and VersionRange.SortBySorted.

## Model

| member | source | states |
|---|---|---|
| Html.TraverseNode | internal/html/parser.go:318-328 | the traversal returns the tree in which every element, in pre-order, has been replaced by the callback's rewrite of it, with children visited after the rewrite |
| Html.TraverseElement | internal/html/parser.go:321-325 | one element: the callback first, then each of the rewritten element's children in order |
| Html.TraverseChildNodes | internal/html/parser.go:323-325 | the children loop, one child at a time, each as a one-element list |
| Html.Traverse | internal/html/parser.go:318-328 | the tree keeps its length; raw nodes stay raw and unchanged, and elements stay elements |
| Html.TraverseAt | internal/html/parser.go:319-326 | the node at each index is rewritten on its own: raw text kept, an element replaced by its traversal |
| Html.TraverseVisitsPreOrder | internal/html/parser.go:318-328 | the callback is called on the elements in pre-order, and each call's result is the element found at that place in the output tree (same tag, attributes and line) |
| Html.TraverseAvoidsTag | internal/html/parser.go:318-328 | a callback that never returns tag t leaves no element with tag t anywhere in the output |
| Html.TraverseKeepsAbsent | internal/html/parser.go:318-328 | a callback that brings no tag t into a subtree free of it keeps a tree free of t free of it |
| Html.TraverseIdentity | internal/html/parser.go:318-328 | when the callback leaves every element of the tree as it is, the traversal returns the tree unchanged |
| Html.DumpAllAppend | internal/tool/admin_twig.go:103-107 | the dump of a node list is the concatenation of the nodes' dumps, piece by piece |
| Html.PreOrderAppend | internal/html/parser.go:319-326 | the pre-order of two node lists one after the other is their pre-orders one after the other |
| HtmlParser.NewParser | internal/html/parser.go:66-70 | parsing from position 0 with no stop tag yields exactly the node list (or the error) of the parse semantics, and a node list it returns is well-formed: non-empty raw texts without `<`, never two in a row, elements with non-empty names |
| HtmlParser.Parser.constructor | internal/html/parser.go:67 | a parser over the input with the cursor at 0 |
| HtmlParser.Parser.CurrentByte | internal/html/parser.go:73-78 | the byte under the cursor, or 0 past the end |
| HtmlParser.Parser.PeekBytes | internal/html/parser.go:81-86 | the next n bytes, or what remains |
| HtmlParser.Parser.SkipWhitespace | internal/html/parser.go:89-95 | the cursor moves past exactly the run of space, newline, return and tab |
| HtmlParser.Parser.ParseTagName | internal/html/parser.go:267-278 | the name is the maximal run of letters, digits, '-' and ':' at the cursor, which is left after it |
| HtmlParser.Parser.ParseAttrName | internal/html/parser.go:281-293 | the name is the maximal run of bytes other than white space, '=', '>' and '/' |
| HtmlParser.Parser.ParseAttrValue | internal/html/parser.go:296-316 | a quoted value runs to the next quote, and the quote is skipped when present; an unquoted one runs to a space or '>' |
| HtmlParser.Parser.ParseAttribute | internal/html/parser.go:171-183 | one attribute: its name, then an optional `=` and value; an empty name stops the loop with the cursor unmoved |
| HtmlParser.Parser.ParseAttributes | internal/html/parser.go:166-184 | the attribute loop collects attributes in source order until the end of the input, '>', "/>" or an empty name |
| HtmlParser.Parser.ParseElement | internal/html/parser.go:147-210 | an element, or the first of the errors: no '<', an empty tag name, no '>' after '/', no '>'; a child error is passed up |
| HtmlParser.Parser.ReadClosingName | internal/html/parser.go:220-223 | at "</" it reads the closing tag's name after any white space |
| HtmlParser.Parser.AppendRaw | internal/html/parser.go:119-125 | text accumulated since the last element is appended as one raw node when non-empty |
| HtmlParser.Parser.ParseElementChildren | internal/html/parser.go:213-264 | children until the matching closing tag, which is consumed; a closing tag without '>' is an error; the wrong closing tag is an "empty tag name" error; the end of input ends the list and drops the text after the last tag |
| HtmlParser.Parser.ParseNodeList | internal/html/parser.go:98-144 | nodes until a closing tag named by a non-empty stop tag, raw text between elements kept as raw nodes |
| HtmlParserSpec.Message | internal/html/parser.go:149-199 | an error's text is its cause's words followed by a decimal numeral that reads back as its position |
| HtmlParserSpec.MessageIdentifies | internal/html/parser.go:149-199 | two errors have the same text exactly when they have the same cause and position |
| HtmlParserSpec.KindRead | internal/html/parser.go:149-199 | the cause can be read back from an error's text |
| HtmlParserSpec.Peek | internal/html/parser.go:81-86 | a prefix of the rest of the input, n bytes long when that many remain |
| HtmlParserSpec.PeekCloseTag | internal/html/parser.go:104 | the test `current() == '<' && peek(2) == "</"` holds exactly at a "</" |
| HtmlParserSpec.SkipWsSpec | internal/html/parser.go:89-95 | every byte skipped is white space, and the first byte not skipped is not |
| HtmlParserSpec.TagNameEndSpec | internal/html/parser.go:267-278 | every byte of a tag name is a name byte, and so is none just after it |
| HtmlParserSpec.AttrNameEndSpec | internal/html/parser.go:281-293 | an attribute name holds no stop byte and ends at one or at the end |
| HtmlParserSpec.QuoteEndSpec | internal/html/parser.go:300-302 | a quoted value holds no quote and ends at one or at the end |
| HtmlParserSpec.UnquotedEndSpec | internal/html/parser.go:311-314 | an unquoted value holds no space and no '>' and ends at one or at the end |
| HtmlParserSpec.ReadAttr | internal/html/parser.go:171-183 | no attribute leaves the cursor where it was; an attribute moves it forward |
| HtmlParserSpec.AttrLoopStops | internal/html/parser.go:167-174 | at '>', "/>" or an empty name the loop ends with the attributes so far |
| HtmlParserSpec.AttrLoopTakes | internal/html/parser.go:171-183 | otherwise the attribute read is appended and the loop goes on after it |
| HtmlParserSpec.RawIfAny | internal/html/parser.go:137-142 | text between two positions gives a raw node exactly when it is non-empty, and then one node holding exactly that text |
| HtmlParserSpec.ParseElement | internal/html/parser.go:147-210 | a successful element consumes at least one byte |
| HtmlParserSpec.ChildrenBadClose | internal/html/parser.go:225-230 | a closing tag not followed by '>' is the "expected '>' for closing tag" error at that position |
| HtmlParserSpec.ChildrenClosed | internal/html/parser.go:231-239 | the matching closing tag ends the children, with the text before it as a final raw node, and is consumed |
| HtmlParserSpec.ChildrenElement | internal/html/parser.go:246-258 | a '<' that is not the matching close either starts a child element, after the text so far, or fails with that element's error |
| HtmlParserSpec.ChildrenSkip | internal/html/parser.go:259-261 | any other byte is part of the raw text |
| HtmlParserSpec.NodesStopped | internal/html/parser.go:104-115 | the stop tag's closing tag ends the node list, which keeps the text before it |
| HtmlParserSpec.NodesElement | internal/html/parser.go:118-131 | a '<' starts an element after the text so far, or fails with its error |
| HtmlParserSpec.NodesSkip | internal/html/parser.go:132-134 | any other byte is part of the raw text |
| HtmlParserSpec.ChildrenAfterElement | internal/html/parser.go:246-258 | a child element read up to p, then the rest of the children read from p, is the children loop's result |
| HtmlParserSpec.NodesAfterElement | internal/html/parser.go:117-131 | an element read up to p, then the rest of the nodes read from p, is the node loop's result |
| HtmlParserSpec.Parse | internal/html/parser.go:66-70 | every node list the parser returns is well-formed |
| HtmlParserSpec.AttrLoopNames | internal/html/parser.go:166-184 | every attribute name the loop reads is non-empty and holds none of its stop bytes |
| HtmlParserSpec.AppendElement | internal/html/parser.go:117-131 | appending the pending text (free of `<`) and then an element keeps the list well-formed and ending in an element |
| HtmlParserSpec.AppendRawText | internal/html/parser.go:136-142 | appending the pending text at the end keeps the list well-formed |
| HtmlParserSpec.NoRawPairAppend | internal/html/parser.go:117-142 | two lists without adjacent raw texts, not meeting raw to raw, join into one without |
| HtmlParserSpec.ElementWellFormed | internal/html/parser.go:147-210 | an element read has a non-empty name of name bytes, attribute names without stop bytes, line 0, no children when self-closing, and well-formed children |
| HtmlParserSpec.ChildrenWellFormed | internal/html/parser.go:213-264 | the children read are well-formed: each raw child non-empty and free of `<`, never two raw children in a row |
| HtmlParserSpec.NodesWellFormed | internal/html/parser.go:98-144 | the nodes read are well-formed in the same sense |
| HtmlParserSpec.ElementSelfClosing | internal/html/parser.go:186-195 | an opening tag ending in `/>` is a self-closing element without children |
| HtmlParserSpec.ElementWithChildren | internal/html/parser.go:196-209 | an opening tag ending in `>` is an element holding the children read after it |
| HtmlParserSpec.EmptyNameRefused | internal/html/parser.go:151-157 | the name after `<` is empty exactly when no name byte follows the white space, and then the element is the "empty tag name" error at that position |
| HtmlParserSpec.TopLevelCloseRefused | internal/html/parser.go:104-131 | where no closing tag is awaited, `</` is an element with an empty name, so the node list fails |
| HtmlParserSpec.MismatchedCloseRefused | internal/html/parser.go:219-256 | a complete closing tag for another element is the "empty tag name" error |
| HtmlParserSpec.SelfClosingExactly | internal/html/parser.go:186-210 | an element read is self-closing exactly when its attributes end at `/>`, and a self-closing element has no children |
| HtmlParserSpec.UnclosedDropsText | internal/html/parser.go:217-263 | input ending with no `<` left inside an element ends its children there and drops the trailing text |
| HtmlParserSpec.CommentRefused | internal/html/parser.go:151-157 | `<!--` is the "empty tag name" error at position 1 |
| HtmlParserSpec.LessThanInTextRefused | internal/html/parser.go:117-131 | `a < b` reads an element `b` and fails with "expected '>'" at position 5 |
| HtmlParserSpec.StrayCloseRefused | internal/html/parser.go:104-131 | `</x>` at the top level is the "empty tag name" error at position 1 |
| HtmlParserSpec.WrongCloseRefused | internal/html/parser.go:240-256 | `<a></b>` is the "empty tag name" error at position 4 |
| HtmlParserSpec.UnquotedSlashAttrs | internal/html/parser.go:296-316 | in `<a x=1/>` the unquoted value runs up to `>` and takes the slash |
| HtmlParserSpec.UnquotedSlashKept | internal/html/parser.go:166-210 | `<a x=1/>` is an element `a` with `x` = `1/`, not self-closing |
| HtmlParserSpec.UnclosedTextDropped | internal/html/parser.go:217-263 | `<a>hi` is an element `a` without children |
| HtmlRoundTrip.AttrLoopAt | internal/html/parser.go:43-45 | dumped attributes are read back by the attribute loop as the same list |
| HtmlRoundTrip.ElementAt | internal/html/parser.go:39-56 | a dumped element of the kind the parser builds, with no `"` in a value, is read back as itself |
| HtmlRoundTrip.ChildrenAt | internal/html/parser.go:50-53 | dumped children followed by the closing tag are read back as the same children, with the closing tag consumed |
| HtmlRoundTrip.NodesAt | internal/html/parser.go:98-144 | a dumped node list at the end of the input is read back as the same list |
| HtmlRoundTrip.DumpParses | internal/html/parser.go:26-56 | on every well-formed tree with no `"` in a value, parsing the dump gives the tree back |
| HtmlRoundTrip.ReparseDump | internal/html/parser.go:66-70 | a tree the parser returned, with no `"` in a value, is given back by parsing its dump |
| HtmlRoundTrip.QuoteInValueBreaksRoundTrip | internal/html/parser.go:44 | a well-formed element with the value `"` is not given back by parsing its dump |
| FixerCommon.Matching | internal/admintwiglinter/fix_alert.go:16-17 | the elements a rule's Check reports: only ones with its old tag, no more than there are |
| FixerCommon.DiagnosePerMatch | internal/admintwiglinter/fix_alert.go:14-27 | a rule's Check yields one diagnostic per element with its tag, in pre-order, each with the rule's message, severity "error", the tag as identifier and the element's line when the rule reports lines |
| FixerCommon.DiagnoseEmpty | internal/admintwiglinter/fix_alert.go:14-27 | Check reports nothing exactly when no element carries the rule's tag |
| FixerCommon.DiagnoseAppend | internal/admintwiglinter/fix_alert.go:14-27 | the diagnostics of two element lists are the two lists of diagnostics, one after the other |
| FixerCommon.CollectDiagnostics | internal/admintwiglinter/fix_alert.go:14-27 | the traversal that collects a rule's diagnostics collects exactly the pre-order diagnostics |
| FixerCommon.RenameKeysInPlace | internal/admintwiglinter/fix_progress_bar.go:38-47 | renaming keys through the element's own attribute array: every key in the table replaced, values and positions kept |
| FixerCommon.RenameKeysTable | internal/admintwiglinter/fix_datepicker.go:39-48 | a key rename keeps length and values, leaves keys outside the table alone, and leaves no table key when no new key is itself renamed |
| FixerCommon.LastValue | internal/admintwiglinter/fix_tabs.go:70-74 | no value exactly when no attribute has the key |
| FixerCommon.LastValueIsLast | internal/admintwiglinter/fix_tabs.go:70-74 | the value found belongs to the last attribute with the key |
| FixerCommon.FindLastValue | internal/admintwiglinter/fix_select_field.go:93-97 | the loop that overwrites the value on each match finds the last one |
| FixerCommon.FirstKeyIn | internal/admintwiglinter/fix_switch.go:62-74 | no key exactly when no attribute has a key from the set; otherwise a key from the set |
| FixerCommon.FirstKeyInIsFirst | internal/admintwiglinter/fix_switch.go:62-74 | the key found is the first attribute's key from the set, which is where the goto leaves the loop |
| FixerCommon.FindFirstKey | internal/admintwiglinter/fix_switch.go:62-74 | the attribute loop that jumps out at the first slot key finds exactly that key |
| FixerCommon.TrimmedDumpsOfText | internal/admintwiglinter/fix_passwordfield.go:76-78 | the content of a single text child is that text with the white space trimmed from both ends |
| FixerCommon.TrimmedDumpsBound | internal/admintwiglinter/fix_passwordfield.go:76-78 | a slot's trimmed content is never longer than its dump |
| FixerCommon.TrimmedContent | internal/admintwiglinter/fix_passwordfield.go:75-78 | the content of a slot is the concatenation of its children's trimmed dumps |
| FixerCommon.LastSlotTextWins | internal/admintwiglinter/fix_email_field.go:65-78 | the label is the trimmed content of the last label slot, since each slot overwrites it |
| FixerCommon.LastSlotTextNone | internal/admintwiglinter/fix_email_field.go:65-78 | without a label slot the label stays empty |
| FixerCommon.ReadLastSlot | internal/admintwiglinter/fix_email_field.go:65-78 | the children loop computes the label of the last slot |
| FixerCommon.SlotKey | internal/admintwiglinter/fix_checkbox_field.go:60-84 | only a template child has a slot key, and it is one of the slot keys |
| FixerCommon.LastLabelTextWins | internal/admintwiglinter/fix_checkbox_field.go:60-84 | the label is taken from the last template whose first slot key is a label key |
| FixerCommon.LastLabelTextNone | internal/admintwiglinter/fix_checkbox_field.go:60-84 | with no such template the label is empty |
| FixerCommon.SlotDumpsAppend | internal/admintwiglinter/fix_datepicker.go:50-64 | the accumulated label of two groups of children is the two labels one after the other |
| FixerCommon.SlotDumpsOneTemplate | internal/admintwiglinter/fix_datepicker.go:50-64 | one `#label` template contributes its children's untrimmed dumps |
| FixerCommon.TemplateContribution | internal/admintwiglinter/fix_datepicker.go:53-60 | a template adds its children's dumps once for each `#label` key it carries |
| FixerCommon.AccumulateSlotDumps | internal/admintwiglinter/fix_datepicker.go:50-64 | the accumulating loop computes the concatenated label |
| FixerCommon.LabelIfAny | internal/admintwiglinter/fix_text_field.go:81-86 | a `label` attribute is appended exactly when the label is not empty |
| FixerCommon.JsonList | internal/admintwiglinter/fix_select_field.go:125 | a marshalled object or array starts and ends with its bracket |
| FixerCommon.JsonListSplits | internal/admintwiglinter/fix_tabs.go:102 | when no member holds a comma, splitting the inside at commas gives back the members in order |
| FixAlert.Fixed | internal/admintwiglinter/fix_alert.go:33-68 | only `sw-alert` changes: it becomes `mt-banner`, and line, self-closing and children are kept |
| FixAlert.ConvertAttributes | internal/admintwiglinter/fix_alert.go:39-62 | the attribute loop computes the attribute table |
| FixAlert.Fix | internal/admintwiglinter/fix_alert.go:34-66 | the callback computes the rewrite |
| FixAlert.AttributeTable | internal/admintwiglinter/fix_alert.go:39-62 | one attribute out for each in, no `success`/`error`/`warning` variant left, every other attribute kept in order |
| FixAlert.NewVariantIdempotent | internal/admintwiglinter/fix_alert.go:44-57 | translating a variant twice is translating it once |
| FixAlert.FixedChildren | internal/admintwiglinter/fix_alert.go:33-68 | the children are not touched |
| FixButton.Fixed | internal/admintwiglinter/fix_button.go:38-87 | only `sw-button` changes: it becomes `mt-button`, and line, self-closing and children are kept |
| FixButton.AddsGhostSnoc | internal/admintwiglinter/fix_button.go:45-77 | the ghost flag is set once some attribute asked for it |
| FixButton.ConvertAttributes | internal/admintwiglinter/fix_button.go:45-77 | the attribute loop computes the attribute table and the ghost flag |
| FixButton.Fix | internal/admintwiglinter/fix_button.go:39-85 | the callback computes the rewrite |
| FixButton.AttributeTable | internal/admintwiglinter/fix_button.go:45-82 | no `router-link` and no retired variant survives; unhandled attributes keep value and order |
| FixButton.CriticalFresh | internal/admintwiglinter/fix_button.go:45-77 | the `critical` variant the rule writes is not one it would rewrite again |
| FixButton.MapAttrFresh | internal/admintwiglinter/fix_button.go:45-77 | no attribute the loop emits is one it rewrites |
| FixButton.RouterLinkClick | internal/admintwiglinter/fix_button.go:67-73 | a `router-link` to t becomes, in its place, a click handler pushing t |
| FixButton.FixedChildren | internal/admintwiglinter/fix_button.go:38-87 | the children are not touched |
| FixCard.Fixed | internal/admintwiglinter/fix_card.go:35-72 | only `sw-card` changes: it becomes `mt-card`, and line and self-closing are kept |
| FixCard.ConvertAttributes | internal/admintwiglinter/fix_card.go:42-52 | the loop drops `aiBadge` and `contentPadding` and records whether `aiBadge` was there |
| FixCard.Fix | internal/admintwiglinter/fix_card.go:36-69 | the callback computes the rewrite |
| FixCard.AttributeTable | internal/admintwiglinter/fix_card.go:42-52 | the two keys are gone, the others kept in order, and a card without them keeps its attributes |
| FixCard.BadgeSlotFirst | internal/admintwiglinter/fix_card.go:56-68 | with `aiBadge` the title slot holding the badge comes first, then the old children; without it the children are unchanged |
| FixCard.FixedChildrenRanked | internal/admintwiglinter/fix_card.go:56-68 | the traversal of the new children terminates: every child ranks below the card |
| FixCard.FixedKeepsAbsent | internal/admintwiglinter/fix_card.go:56-68 | the rewrite brings in only `mt-card`, `slot` and the badge |
| FixCheckboxField.Fixed | internal/admintwiglinter/fix_checkbox_field.go:36-94 | only `sw-checkbox-field` changes: it becomes `mt-checkbox`, and line and self-closing are kept |
| FixCheckboxField.ConvertAttributes | internal/admintwiglinter/fix_checkbox_field.go:42-57 | the attribute loop computes the attribute table |
| FixCheckboxField.ConvertChildren | internal/admintwiglinter/fix_checkbox_field.go:60-84 | label and hint templates are consumed and the label comes from the last label template; the other children are kept |
| FixCheckboxField.Fix | internal/admintwiglinter/fix_checkbox_field.go:37-92 | the callback computes the rewrite |
| FixCheckboxField.AttributeTable | internal/admintwiglinter/fix_checkbox_field.go:42-57 | no handled key survives, the others keep value and order, and exactly `id`, `ghostValue` and `padded` are lost |
| FixCheckboxField.MapAttrAvoids | internal/admintwiglinter/fix_checkbox_field.go:42-57 | nothing the loop emits is a handled key |
| FixCheckboxField.MapAttrKeeps | internal/admintwiglinter/fix_checkbox_field.go:42-57 | an unhandled attribute is copied as it is, and a handled one never becomes an unhandled one |
| FixCheckboxField.LabelFromLastSlot | internal/admintwiglinter/fix_checkbox_field.go:85-90 | the last label template gives `label`, right after the converted attributes |
| FixCheckboxField.FixedChildren | internal/admintwiglinter/fix_checkbox_field.go:60-84 | the kept children are the element's own, and none is a slot template |
| FixColorpicker.Fixed | internal/admintwiglinter/fix_colorpicker.go:35-85 | only `sw-colorpicker` changes: it becomes `mt-colorpicker` with no children, keeping line and self-closing |
| FixColorpicker.ConvertAttributes | internal/admintwiglinter/fix_colorpicker.go:41-55 | the attribute loop computes the attribute table |
| FixColorpicker.Fix | internal/admintwiglinter/fix_colorpicker.go:36-83 | the callback computes the rewrite |
| FixColorpicker.AttributeTable | internal/admintwiglinter/fix_colorpicker.go:41-55 | no handled key survives, the others keep value and order, and none is lost |
| FixColorpicker.LabelFromLastSlot | internal/admintwiglinter/fix_colorpicker.go:59-81 | a non-empty last `#label` template gives exactly one `label` after the converted attributes |
| FixColorpicker.NoLabelSlot | internal/admintwiglinter/fix_colorpicker.go:59-81 | without one the attributes are only the converted ones |
| FixColorpicker.FixedChildren | internal/admintwiglinter/fix_colorpicker.go:75 | every child left is one of the element's own; the rewrite leaves none |
| FixDatepicker.Fixed | internal/admintwiglinter/fix_datepicker.go:33-77 | only `sw-datepicker` changes: it becomes `mt-datepicker` with no children, keeping line and self-closing |
| FixDatepicker.Fix | internal/admintwiglinter/fix_datepicker.go:34-75 | the callback, renaming keys in the element's own array, computes the rewrite |
| FixDatepicker.AttributeTable | internal/admintwiglinter/fix_datepicker.go:39-48 | the rename keeps length and values, and no renamed key is left |
| FixDatepicker.LabelFromTemplate | internal/admintwiglinter/fix_datepicker.go:50-72 | one `#label` template gives `label` with its children's untrimmed dumps |
| FixDatepicker.LabelsAccumulate | internal/admintwiglinter/fix_datepicker.go:50-64 | labels of several templates are concatenated, not overwritten |
| FixDatepicker.FixedChildren | internal/admintwiglinter/fix_datepicker.go:66 | every child left is one of the element's own; the rewrite leaves none |
| FixEmailField.Fixed | internal/admintwiglinter/fix_email_field.go:35-89 | only `sw-email-field` changes: it becomes `mt-email-field` with no children, keeping line and self-closing |
| FixEmailField.ConvertAttributes | internal/admintwiglinter/fix_email_field.go:40-61 | the attribute loop computes the attribute table |
| FixEmailField.Fix | internal/admintwiglinter/fix_email_field.go:36-87 | the callback computes the rewrite |
| FixEmailField.AttributeTable | internal/admintwiglinter/fix_email_field.go:40-61 | no handled key survives, the others keep value and order, and exactly `isInvalid`, `aiBadge` and `@base-field-mounted` are lost |
| FixEmailField.MapAttrKeeps | internal/admintwiglinter/fix_email_field.go:40-61 | an unhandled attribute is copied as it is |
| FixEmailField.LabelFromLastSlot | internal/admintwiglinter/fix_email_field.go:65-85 | a non-empty last `#label` template gives exactly one `label` after the converted attributes |
| FixEmailField.NoLabelSlot | internal/admintwiglinter/fix_email_field.go:65-85 | without one the attributes are only the converted ones |
| FixEmailField.FixedChildren | internal/admintwiglinter/fix_email_field.go:79 | every child left is one of the element's own; the rewrite leaves none |
| FixExternalLink.Fixed | internal/admintwiglinter/fix_external_link.go:33-48 | only `sw-external-link` changes: it becomes `mt-external-link`, keeping line, self-closing and children |
| FixExternalLink.Fix | internal/admintwiglinter/fix_external_link.go:34-46 | the callback, skipping `icon`, computes the rewrite |
| FixExternalLink.AttributeTable | internal/admintwiglinter/fix_external_link.go:38-43 | no `icon` is left, the kept attributes are the element's own in order, and a link without `icon` keeps its attributes |
| FixExternalLink.FixedChildren | internal/admintwiglinter/fix_external_link.go:33-48 | the children are not touched |
| FixIcon.Fixed | internal/admintwiglinter/fix_icon.go:37-78 | only `sw-icon` changes: it becomes `mt-icon`, keeping line, self-closing and children |
| FixIcon.HasSizeSnoc | internal/admintwiglinter/fix_icon.go:43-66 | the size flag is set once some attribute is a size one |
| FixIcon.ConvertAttributes | internal/admintwiglinter/fix_icon.go:43-66 | the attribute loop computes the attribute table and the size flag |
| FixIcon.Fix | internal/admintwiglinter/fix_icon.go:38-76 | the callback computes the rewrite |
| FixIcon.AttributeTable | internal/admintwiglinter/fix_icon.go:43-66 | one attribute out for each in, no `small` or `large` flag left, other attributes kept in order |
| FixIcon.MapAttrSized | internal/admintwiglinter/fix_icon.go:44-62 | a size attribute, in any letter case, becomes one whose lower-cased key is `size` |
| FixIcon.SizeKept | internal/admintwiglinter/fix_icon.go:43-66 | a size attribute in means a size attribute out |
| FixIcon.AlwaysSized | internal/admintwiglinter/fix_icon.go:43-73 | every rewritten icon has a size: its own, or the default `24px` |
| FixIcon.FixedChildren | internal/admintwiglinter/fix_icon.go:37-78 | the children are not touched |
| FixNumberField.Fixed | internal/admintwiglinter/fix_number_field.go:35-91 | only `sw-number-field` changes: it becomes `mt-number-field` with no children, keeping line and self-closing |
| FixNumberField.ConvertAttributes | internal/admintwiglinter/fix_number_field.go:40-64 | the attribute loop computes the attribute table |
| FixNumberField.Fix | internal/admintwiglinter/fix_number_field.go:36-89 | the callback computes the rewrite |
| FixNumberField.AttributeTable | internal/admintwiglinter/fix_number_field.go:40-64 | no handled key survives, the others keep value and order, and each `v-model:value` becomes two attributes |
| FixNumberField.VModelSplit | internal/admintwiglinter/fix_number_field.go:40-64 | `v-model:value` x splits into `:model-value` x and `@change` assigning `$event` back to x |
| FixNumberField.LabelFromLastSlot | internal/admintwiglinter/fix_number_field.go:67-87 | a non-empty last `#label` template gives exactly one `label` after the converted attributes |
| FixNumberField.NoLabelSlot | internal/admintwiglinter/fix_number_field.go:67-87 | without one the attributes are only the converted ones |
| FixNumberField.FixedChildren | internal/admintwiglinter/fix_number_field.go:81 | every child left is one of the element's own; the rewrite leaves none |
| FixPasswordField.Fixed | internal/admintwiglinter/fix_passwordfield.go:36-108 | only `sw-password-field` changes: it becomes `mt-password-field` with no children, keeping line and self-closing |
| FixPasswordField.ConvertAttributes | internal/admintwiglinter/fix_passwordfield.go:42-67 | the attribute loop computes the attribute table |
| FixPasswordField.ReadSlotsOf | internal/admintwiglinter/fix_passwordfield.go:73-88 | an element child with `#label` resets the label, and one with `#hint` resets the hint, each from its trimmed content with the first `Label`/`Hint` lower-cased |
| FixPasswordField.ConvertChildren | internal/admintwiglinter/fix_passwordfield.go:70-90 | the children loop computes label and hint |
| FixPasswordField.Fix | internal/admintwiglinter/fix_passwordfield.go:37-106 | the callback computes the rewrite |
| FixPasswordField.AttributeTable | internal/admintwiglinter/fix_passwordfield.go:42-67 | no renamed or removed key survives, the others keep value and order, and exactly `isInvalid` and `@base-field-mounted` are lost |
| FixPasswordField.MapAttrKeeps | internal/admintwiglinter/fix_passwordfield.go:42-67 | an unhandled attribute is copied as it is |
| FixPasswordField.LabelFromLastSlot | internal/admintwiglinter/fix_passwordfield.go:71-98 | the last `#label` element child, when its trimmed text holds no `Label`, gives `label` with that text right after the converted attributes |
| FixPasswordField.NoSlots | internal/admintwiglinter/fix_passwordfield.go:71-104 | without label or hint children the attributes are only the converted ones |
| FixPasswordField.FixedChildren | internal/admintwiglinter/fix_passwordfield.go:92 | every child left is one of the element's own; the rewrite leaves none |
| FixProgressBar.Fixed | internal/admintwiglinter/fix_progress_bar.go:33-51 | only `sw-progress-bar` changes: it becomes `mt-progress-bar`, keeping line, self-closing and children |
| FixProgressBar.Fix | internal/admintwiglinter/fix_progress_bar.go:34-49 | the callback, renaming keys in place, computes the rewrite |
| FixProgressBar.AttributeTable | internal/admintwiglinter/fix_progress_bar.go:38-47 | the rename keeps length and values, and no renamed key is left |
| FixProgressBar.FixedChildren | internal/admintwiglinter/fix_progress_bar.go:33-51 | the children are not touched |
| FixSelectField.Fixed | internal/admintwiglinter/fix_select_field.go:38-138 | only `sw-select-field` changes: it becomes `mt-select` with no children, keeping line and self-closing |
| FixSelectField.ConvertAttributes | internal/admintwiglinter/fix_select_field.go:43-67 | the attribute loop computes the attribute table and whether `:options` was set |
| FixSelectField.ConvertChildren | internal/admintwiglinter/fix_select_field.go:69-112 | label templates and `option` children are consumed; the label is the last template's and the options come in document order |
| FixSelectField.Fix | internal/admintwiglinter/fix_select_field.go:39-136 | the callback computes the rewrite |
| FixSelectField.AttributeTable | internal/admintwiglinter/fix_select_field.go:47-66 | no `:value`, `v-model:value`, `:aside` or `@update:value` survives, the others keep value and order, and exactly the `:aside` attributes are lost |
| FixSelectField.ConvertOptionsPlain | internal/admintwiglinter/fix_select_field.go:55-60 | an `:options` value without `name` or `id` is kept as it is |
| FixSelectField.LabelFromLastSlot | internal/admintwiglinter/fix_select_field.go:77-120 | a non-empty last label template gives `label` right after the converted attributes |
| FixSelectField.OptionsFromChildren | internal/admintwiglinter/fix_select_field.go:90-132 | with no `:options` and some `option` children, the last attribute is `:options` holding their JSON array in order |
| FixSelectField.FixedChildren | internal/admintwiglinter/fix_select_field.go:134 | every child left is one of the element's own; the rewrite leaves none |
| FixSkeletonBar.Fixed | internal/admintwiglinter/fix_skeleton_bar.go:32-39 | `sw-skeleton-bar` is renamed `mt-skeleton-bar` and nothing else changes |
| FixSkeletonBar.Fix | internal/admintwiglinter/fix_skeleton_bar.go:33-37 | the callback computes the rewrite |
| FixSkeletonBar.FixedChildren | internal/admintwiglinter/fix_skeleton_bar.go:32-39 | the children are not touched |
| FixSwitch.Fixed | internal/admintwiglinter/fix_switch.go:36-91 | only `sw-switch-field` changes: it becomes `mt-switch`, keeping line and self-closing |
| FixSwitch.ConvertAttributes | internal/admintwiglinter/fix_switch.go:42-54 | the attribute loop computes the attribute table |
| FixSwitch.ConvertChildren | internal/admintwiglinter/fix_switch.go:57-80 | label and hint templates are consumed and the label comes from the last `#label` template; the other children are kept |
| FixSwitch.Fix | internal/admintwiglinter/fix_switch.go:37-89 | the callback computes the rewrite |
| FixSwitch.AttributeTable | internal/admintwiglinter/fix_switch.go:42-53 | no handled key survives, the others keep value and order, and exactly `size`, `id`, `ghostValue`, `padded` and `partlyChecked` are lost |
| FixSwitch.MapAttrKeeps | internal/admintwiglinter/fix_switch.go:42-53 | an unhandled attribute is copied as it is |
| FixSwitch.LabelFromLastSlot | internal/admintwiglinter/fix_switch.go:59-87 | the last template whose first slot key is `#label` gives `label` after the converted attributes |
| FixSwitch.FixedChildren | internal/admintwiglinter/fix_switch.go:59-80 | the kept children are the element's own, and none is a slot template |
| FixTabs.Fixed | internal/admintwiglinter/fix_tabs.go:37-122 | only `sw-tabs` changes: it becomes `mt-tabs`, keeping line and self-closing |
| FixTabs.ConvertAttributes | internal/admintwiglinter/fix_tabs.go:41-53 | the attribute loop computes the attribute table |
| FixTabs.CollectItems | internal/admintwiglinter/fix_tabs.go:66-83 | each `sw-tabs-item` of the default slot gives an item: its trimmed text and its last `name` |
| FixTabs.ConvertChildren | internal/admintwiglinter/fix_tabs.go:60-98 | default and content templates are consumed, and the rest is kept in order; the items are those of every default slot, and the content flag is set when a content slot occurs |
| FixTabs.Fix | internal/admintwiglinter/fix_tabs.go:38-120 | the callback computes the rewrite |
| FixTabs.AttributeTable | internal/admintwiglinter/fix_tabs.go:43-52 | `is-vertical` becomes `vertical`, `align-right` is dropped, and the rest keep value and order |
| FixTabs.ItemsValueUnquoted | internal/admintwiglinter/fix_tabs.go:102-104 | the `:items` value holds no double quote, so its dump stays inside the attribute's quotes |
| FixTabs.FixedChildren | internal/admintwiglinter/fix_tabs.go:95-98 | the kept children are the element's own, in order |
| FixTextField.Fixed | internal/admintwiglinter/fix_text_field.go:35-90 | only `sw-text-field` changes: it becomes `mt-text-field` with no children, keeping line and self-closing |
| FixTextField.ConvertAttributes | internal/admintwiglinter/fix_text_field.go:41-63 | the attribute loop computes the attribute table |
| FixTextField.Fix | internal/admintwiglinter/fix_text_field.go:36-88 | the callback computes the rewrite |
| FixTextField.AttributeTable | internal/admintwiglinter/fix_text_field.go:41-63 | no handled key survives, the others keep value and order, and exactly `isInvalid`, `aiBadge` and `@base-field-mounted` are lost |
| FixTextField.MapAttrKeeps | internal/admintwiglinter/fix_text_field.go:41-63 | an unhandled attribute is copied as it is |
| FixTextField.LabelFromLastSlot | internal/admintwiglinter/fix_text_field.go:67-86 | a non-empty last `#label` template gives exactly one `label` after the converted attributes |
| FixTextField.NoLabelSlot | internal/admintwiglinter/fix_text_field.go:67-86 | without one the attributes are only the converted ones |
| FixTextField.FixedChildren | internal/admintwiglinter/fix_text_field.go:80 | every child left is one of the element's own; the rewrite leaves none |
| FixTextareaField.Fixed | internal/admintwiglinter/fix_textareafield.go:33-76 | only `sw-textarea-field` changes: it becomes `mt-textarea` with no children, keeping line and self-closing |
| FixTextareaField.Fix | internal/admintwiglinter/fix_textareafield.go:34-74 | the callback, renaming keys in place, computes the rewrite |
| FixTextareaField.AttributeTable | internal/admintwiglinter/fix_textareafield.go:38-47 | the rename keeps length and values, and no renamed key is left |
| FixTextareaField.LabelFromTemplate | internal/admintwiglinter/fix_textareafield.go:49-72 | one `#label` template gives `label` with its children's untrimmed dumps |
| FixTextareaField.LabelsAccumulate | internal/admintwiglinter/fix_textareafield.go:51-63 | labels of several templates are concatenated |
| FixTextareaField.FixedChildren | internal/admintwiglinter/fix_textareafield.go:65 | every child left is one of the element's own; the rewrite leaves none |
| FixUrlField.Fixed | internal/admintwiglinter/fix_url_field.go:37-89 | only `sw-url-field` changes: it becomes `mt-url-field` with no children, keeping line and self-closing |
| FixUrlField.ConvertAttributes | internal/admintwiglinter/fix_url_field.go:42-57 | the attribute loop computes the attribute table |
| FixUrlField.Fix | internal/admintwiglinter/fix_url_field.go:38-87 | the callback computes the rewrite |
| FixUrlField.AttributeTable | internal/admintwiglinter/fix_url_field.go:42-57 | no handled key survives, the others keep value and order, and none is lost |
| FixUrlField.LabelFromLastSlot | internal/admintwiglinter/fix_url_field.go:60-85 | a non-empty last `#label` element child gives exactly one `label` after the converted attributes |
| FixUrlField.NoLabelSlot | internal/admintwiglinter/fix_url_field.go:60-85 | without one the attributes are only the converted ones |
| FixUrlField.FixedChildren | internal/admintwiglinter/fix_url_field.go:79 | every child left is one of the element's own; the rewrite leaves none |
| FixPopover.Fixed | internal/admintwiglinter/fixer_popover.go:34-62 | only `sw-popover` changes: it becomes `mt-floating-ui`, keeping line, self-closing and children |
| FixPopover.Fix | internal/admintwiglinter/fixer_popover.go:35-59 | the callback as meant (building a new list) computes the rewrite |
| FixPopover.AttributeTable | internal/admintwiglinter/fixer_popover.go:41-50 | no `v-if`, `:zIndex` or `:resizeWidth` is left, the others keep value and order, and exactly the removed ones are lost |
| FixPopover.AlwaysOpened | internal/admintwiglinter/fixer_popover.go:39-57 | every rewritten popover has `:isOpened`: a renamed `v-if` or the appended `true` |
| FixPopover.RemoveAt | internal/admintwiglinter/fixer_popover.go:48 | `append(a[:n], a[n+1:]...)` shifts the tail left inside the same backing array and leaves its last slot |
| FixPopover.Step | internal/admintwiglinter/fixer_popover.go:41-50 | one iteration as written keeps the backing array's size |
| FixPopover.Loop | internal/admintwiglinter/fixer_popover.go:41-50 | the range loop as written, over the length read at its start |
| FixPopover.FixAsWritten | internal/admintwiglinter/fixer_popover.go:35-59 | the callback line by line, with a panic where an index or slice leaves the array |
| FixPopover.StepWithoutRemoval | internal/admintwiglinter/fixer_popover.go:41-46 | an iteration on an attribute that is not removed rewrites it in place, as meant, and notes a `v-if` |
| FixPopover.LoopWithoutRemoval | internal/admintwiglinter/fixer_popover.go:41-50 | without removals the loop as written rewrites the rest of the list as meant |
| FixPopover.AsWrittenWithoutRemoval | internal/admintwiglinter/fixer_popover.go:41-57 | without `:zIndex` and `:resizeWidth` the code as written does what is meant |
| FixPopover.AsWrittenLoneZIndex | internal/admintwiglinter/fixer_popover.go:41-57 | a lone `:zIndex` is removed correctly |
| FixPopover.AsWrittenSkipsAfterRemoval | internal/admintwiglinter/fixer_popover.go:41-50 | an attribute right after a removed one is skipped: a `:resizeWidth` after `:zIndex` survives |
| FixPopover.FixedRemovesBoth | internal/admintwiglinter/fixer_popover.go:41-57 | as meant, both are removed |
| FixPopover.AsWrittenMissesVIf | internal/admintwiglinter/fixer_popover.go:41-57 | a `v-if` right after `:zIndex` is skipped, and `:isOpened="true"` is appended beside it |
| FixPopover.FixedRenamesVIf | internal/admintwiglinter/fixer_popover.go:41-57 | as meant, that `v-if` becomes `:isOpened` and nothing is appended |
| FixPopover.AsWrittenPanicsOnTwoRemovals | internal/admintwiglinter/fixer_popover.go:47-49 | two removable attributes as the whole list make the second removal slice past the length |
| FixPopover.AsWrittenPanicsOnTrailingVIf | internal/admintwiglinter/fixer_popover.go:42-44 | a final `v-if` after `:zIndex` is written past the length |
| FixPopover.FixedChildren | internal/admintwiglinter/fixer_popover.go:34-62 | the children are not touched |
| Fixers.Supporting | internal/admintwiglinter/fix_alert.go:29-31 | every rule answers Supports with the same Shopware 6.7 constraint, so either all rules of the list apply or none |
| Fixers.KeepingRuleLawful | internal/tool/admin_twig.go:97-101 | a rule that renames its `sw-` tag to an `mt-` tag and keeps only the element's own children has every property the engine relies on |
| Fixers.CardLawful | internal/admintwiglinter/fix_card.go:35-72 | the card rule has them too, although it adds children |
| Fixers.AlertLawful | internal/admintwiglinter/fix_alert.go:33-68 | the alert rule is lawful |
| Fixers.ButtonLawful | internal/admintwiglinter/fix_button.go:38-87 | the button rule is lawful |
| Fixers.CheckboxFieldLawful | internal/admintwiglinter/fix_checkbox_field.go:36-94 | the checkbox rule is lawful |
| Fixers.ColorpickerLawful | internal/admintwiglinter/fix_colorpicker.go:35-85 | the colorpicker rule is lawful |
| Fixers.DatepickerLawful | internal/admintwiglinter/fix_datepicker.go:33-77 | the datepicker rule is lawful |
| Fixers.EmailFieldLawful | internal/admintwiglinter/fix_email_field.go:35-89 | the email field rule is lawful |
| Fixers.ExternalLinkLawful | internal/admintwiglinter/fix_external_link.go:33-48 | the external link rule is lawful |
| Fixers.IconLawful | internal/admintwiglinter/fix_icon.go:37-78 | the icon rule is lawful |
| Fixers.NumberFieldLawful | internal/admintwiglinter/fix_number_field.go:35-91 | the number field rule is lawful |
| Fixers.PasswordFieldLawful | internal/admintwiglinter/fix_passwordfield.go:36-108 | the password field rule is lawful |
| Fixers.ProgressBarLawful | internal/admintwiglinter/fix_progress_bar.go:33-51 | the progress bar rule is lawful |
| Fixers.SelectFieldLawful | internal/admintwiglinter/fix_select_field.go:38-138 | the select field rule is lawful |
| Fixers.SkeletonBarLawful | internal/admintwiglinter/fix_skeleton_bar.go:32-39 | the skeleton bar rule is lawful |
| Fixers.SwitchLawful | internal/admintwiglinter/fix_switch.go:36-91 | the switch rule is lawful |
| Fixers.TabsLawful | internal/admintwiglinter/fix_tabs.go:37-122 | the tabs rule is lawful |
| Fixers.TextFieldLawful | internal/admintwiglinter/fix_text_field.go:35-90 | the text field rule is lawful |
| Fixers.TextareaFieldLawful | internal/admintwiglinter/fix_textareafield.go:33-76 | the textarea rule is lawful |
| Fixers.UrlFieldLawful | internal/admintwiglinter/fix_url_field.go:37-89 | the url field rule is lawful |
| Fixers.PopoverLawful | internal/admintwiglinter/fixer_popover.go:34-62 | the popover rule, as meant, is lawful |
| Fixers.RuleLawful | internal/tool/admin_twig.go:97-101 | every rule is lawful |
| Fixers.LawfulClears | internal/tool/admin_twig.go:97-101 | a lawful rule's Fix leaves no element with its old tag |
| Fixers.LawfulIdentity | internal/tool/admin_twig.go:97-101 | a lawful rule's Fix leaves a tree without its old tag unchanged |
| Fixers.FixClears | internal/tool/admin_twig.go:97-101 | after a rule's Fix no element carries its old tag |
| Fixers.FixWithoutTag | internal/tool/admin_twig.go:97-101 | a tree without the old tag is left as it is |
| Fixers.CheckEmpty | internal/admintwiglinter/fix_alert.go:14-27 | a rule's Check is empty exactly when its old tag is absent |
| Fixers.CheckAfterFix | internal/tool/admin_twig.go:46-56 | a rule's Check after its Fix finds nothing |
| Fixers.FixWithoutMatches | internal/tool/admin_twig.go:97-101 | where Check finds nothing, Fix changes nothing |
| Fixers.FixIdempotent | internal/tool/admin_twig.go:97-101 | a rule's Fix twice is its Fix once |
| Fixers.FixVisitsPreOrder | internal/html/parser.go:318-328 | a rule's traversal terminates and calls the rewrite on the elements in pre-order |
| Fixers.FixKeepsAbsent | internal/tool/admin_twig.go:97-101 | no rule's Fix brings back another rule's old tag |
| Fixers.FixAllClears | internal/tool/admin_twig.go:97-101 | after the selected rules' Fixes in order no selected old tag is left |
| Fixers.CheckAfterFixAll | internal/tool/admin_twig.go:46-56 | after all selected Fixes, every selected rule's Check is empty |
| Fixers.Fix | internal/tool/admin_twig.go:98 | a rule's Fix is TraverseNode with its rewrite |
| Fixers.RunCheck | internal/tool/admin_twig.go:47 | a rule's Check is its pre-order diagnostics |
| AdminTwig.ExtMeaning | internal/tool/admin_twig.go:31 | `filepath.Ext`: empty exactly when no '.' follows the last '/'; otherwise a suffix that starts with its only '.' and holds no '/' |
| AdminTwig.ExtSuffix | internal/tool/admin_twig.go:31 | the extension is a suffix of the path |
| AdminTwig.ExtDotted | internal/tool/admin_twig.go:31 | a path ending in '.' and a word without '/' or '.' has that extension |
| AdminTwig.TwigExt | internal/tool/admin_twig.go:31-33 | a file is linted exactly when its path ends in `.twig` |
| AdminTwig.ReportedPathRelative | internal/tool/admin_twig.go:50 | a file inside the extension is reported relative to it, with or without the `/private` prefix |
| AdminTwig.ToResults | internal/tool/admin_twig.go:47-55 | one result per diagnostic, in order, at line 0 with the message, the severity and the prefixed identifier |
| AdminTwig.CheckFile | internal/tool/admin_twig.go:31-58 | a non-`.twig` file adds nothing; a read or parse failure is an error (the parse error prefixed by the path) and adds nothing; otherwise the results of the selected rules, in order, are appended |
| AdminTwig.AddFileResults | internal/tool/admin_twig.go:46-56 | the rule loop appends each rule's results in list order |
| AdminTwig.AddAll | internal/tool/admin_twig.go:47-55 | the diagnostic loop appends one result per diagnostic |
| AdminTwig.FileResultsAppend | internal/tool/admin_twig.go:46-56 | the results of two rule lists are one list after the other |
| AdminTwig.FileResultsShape | internal/tool/admin_twig.go:46-56 | every result is at line 0 under the file's reported path with severity "error", carrying the message and `admintwiglinter/` plus the old tag of one selected rule |
| AdminTwig.AllAbsentLast | internal/tool/admin_twig.go:46-56 | no selected old tag occurs, split into the rules before the last one and the last one |
| AdminTwig.FileResultsEmpty | internal/tool/admin_twig.go:46-56 | a file yields no result exactly when none of the selected old tags occurs in it |
| AdminTwig.FileResultsCount | internal/tool/admin_twig.go:46-56 | each rule contributes one result per element carrying its old tag |
| AdminTwig.FixFile | internal/tool/admin_twig.go:82-109 | a non-`.twig` file is skipped; a read or parse failure is returned and nothing is written; otherwise the rules' Fixes run in order on one tree, whose top-level dumps are written |
| AdminTwig.FixThenCheckClean | internal/tool/admin_twig.go:46-56 | a Check after a Fix with the same rules reports nothing |
| AdminTwig.FixAllIdle | internal/tool/admin_twig.go:97-101 | a tree without any selected old tag is left as it is |
| AdminTwig.CleanFileUnchanged | internal/tool/admin_twig.go:97-107 | a file that Check finds clean is written back as the dump of its own tree |
| AdminTwig.FixAllIdempotent | internal/tool/admin_twig.go:97-101 | fixing twice gives the tree that fixing once gives |
| ToolResult.Check.constructor | internal/tool/result.go:13-17 | a new check has no results |
| ToolResult.Check.AddResult | internal/tool/result.go:19-23 | the result is appended and the others are kept |
| ToolResult.Check.HasErrors | internal/tool/result.go:25-33 | true exactly when some result has severity `error` |
| ToolResult.Check.RemoveByIdentifier | internal/tool/result.go:35-60 | the results become those no ignore suppresses (matching identifier, or contained message, with a matching or empty path), and the receiver is returned |
| ToolResult.ShouldKeep | internal/tool/result.go:41-52 | a result is kept exactly when no ignore suppresses it |
| ToolResult.KeptAppend | internal/tool/result.go:40-56 | the filter works piece by piece, keeping relative order |
| ToolResult.KeptMembers | internal/tool/result.go:40-56 | a result survives exactly when it was there and no ignore suppresses it |
| ToolResult.KeptSubsequence | internal/tool/result.go:40-56 | the survivors are a subsequence of the results |
| ToolResult.KeptBlankIgnores | internal/tool/result.go:43-51 | ignores with empty identifier and message suppress nothing |
| MainResult.Check.constructor | result.go:10-14 | a new check has no results |
| MainResult.Check.AddResult | result.go:16-20 | the list grows by one, the new result last, the others unchanged |
| Reporter.RowLines | reporter.go:44-46 | one table row per result, in order |
| Reporter.ConvertResultsToMarkdown | reporter.go:36-51 | the builder produces the summary text |
| Reporter.MarkdownLines | reporter.go:36-51 | read back line by line, the summary is the title, an empty line, the header, the separator, one row per result in order, and a final blank line |
| Reporter.SplitUnlines | reporter.go:39-48 | newline-terminated lines split back into the same lines |
| Reporter.RowLinesOneLine | reporter.go:45 | a row holds no newline when its fields hold none |
| Text.IntToStringValue | reporter.go:27 | the `%d` line number reads back as the line |
| Text.NatToStringValue | reporter.go:27 | the digits of a natural number read back as that number |
| Reporter.AnnotationShape | reporter.go:23-29 | an annotation names severity, file and message, and the line exactly when it is not 0 |
| Reporter.DoCIReport | reporter.go:11-34 | nothing outside GitHub Actions; otherwise the summary goes to the step summary file when one is named, a failed write ends with an error, and then one annotation per result is printed |
| CmdShared.FilterTools | cmd_shared.go:11-37 | an empty option returns every tool; otherwise the tools named by the comma-separated pieces, in the order asked, or the not-found error of the first unknown name |
| CmdShared.FindTool | cmd_shared.go:23-29 | the inner loop finds the first tool with the requested name |
| CmdShared.FirstNamedMeaning | cmd_shared.go:23-29 | nothing is found exactly when no tool has the name; otherwise the first tool that has it |
| CmdShared.FirstNamedAt | cmd_shared.go:23-29 | the tool at j is found when it has the name and no earlier one has |
| CmdShared.FirstNamedNone | cmd_shared.go:23-34 | no tool with the name means nothing found |
| CmdShared.TrimAll | cmd_shared.go:19-21 | one requested name per comma-separated piece |
| CmdShared.TrimAllAt | cmd_shared.go:20 | each requested name is its piece with the white space trimmed |
| CmdShared.RequestedAt | cmd_shared.go:17-20 | the k-th requested name is the k-th comma-separated piece, trimmed |
| CmdShared.FilteredOk | cmd_shared.go:11-37 | with an option, it succeeds exactly when every piece names a tool; it then returns one tool per piece, in order, each the first so named |
| CmdShared.FilteredErr | cmd_shared.go:31-33 | otherwise the error names the first piece that names no tool |
| CmdShared.PickOk | cmd_shared.go:19-34 | resolving the first n pieces succeeds exactly when each names a tool |
| CmdShared.PickValues | cmd_shared.go:19-34 | a successful resolution yields the first tool each piece names |
| CmdShared.PickError | cmd_shared.go:31-33 | a failed resolution names the first unknown piece |
| CmdShared.PickErrLasts | cmd_shared.go:31-33 | once resolution fails, it fails the same way to the end |
| CmdShared.QuoteByte | cmd_shared.go:32 | `%q`: a printable byte other than quote and backslash is copied, and every other byte is escaped |
| CmdShared.QuotePlain | cmd_shared.go:32 | a name of plain printable bytes is quoted unchanged |
| VersionRange.SortByPerm | internal/tool/extension.go:52 | the version sort returns the same versions, each as often |
| VersionRange.SortBySorted | internal/tool/extension.go:52 | the version sort returns them in ascending order |
| VersionRange.InsertPerm | internal/tool/extension.go:52 | inserting adds exactly the one version |
| VersionRange.InsertSorted | internal/tool/extension.go:52 | inserting into an ascending list keeps it ascending |
| VersionRange.ParsedMembers | internal/tool/extension.go:43-50 | a version is among the parsed ones exactly when some listed string parses to it |
| VersionRange.MatchingCount | internal/tool/extension.go:56-60 | the filter keeps each accepted version as often as it occurs, and drops every other |
| VersionRange.MatchingSorted | internal/tool/extension.go:56-60 | filtering an ascending list keeps it ascending |
| VersionRange.MatchingAccepted | internal/tool/extension.go:56-60 | every kept version satisfies the constraint |
| VersionRange.MatchingVersionsMeaning | internal/tool/extension.go:41-60 | the matching versions are ascending and hold each parsed, accepted version as often as the list yields it, and nothing else |
| VersionRange.EndsAreBounds | internal/tool/extension.go:66-67 | the first and last of an ascending accepted list are its least and greatest |
| VersionRange.MatchingBounds | internal/tool/extension.go:54-67 | Min and Max are accepted, Min is not above Max, and every match lies between them |
| VersionRange.Reflexive | internal/tool/extension.go:52 | the version order is reflexive |
| ToolExtension.ToolConfig.constructor | internal/tool/extension.go:16-19 | a configuration with the extension and its ignores, and the rest empty |
| ToolExtension.DetermineVersionRange | internal/tool/extension.go:28-70 | a failing constraint, then a failing fetch, is returned with nothing set; otherwise Min and Max are the ends of the matching releases, or `6.7.0.0` for both when none matches |
| ToolExtension.ConvertExtensionToToolConfig | internal/tool/extension.go:15-26 | a fresh configuration with the extension, its ignores and the worked-out range, or the error of working it out |
| ToolExtension.RangeMeaning | internal/tool/extension.go:62-67 | with matches, Min and Max are the least and greatest accepted release; without, both are the default |
| MainExtension.ToolConfig.constructor | extension.go:45 | a configuration with the root directory and the requirement, and the rest empty |
| MainExtension.DetermineVersionRange | extension.go:54-92 | a failing fetch, or no matching release, is an error with Min and Max unchanged; otherwise they are the ends of the matching releases |
| MainExtension.GuessByPlugin | extension.go:41-51 | without `shopware/core` the error; otherwise a fresh configuration for that requirement with its range, or the range's error |
| MainExtension.SuccessMeaning | extension.go:84-89 | on success Min and Max are accepted, ordered, and bound every accepted release of the list |
| MainExtension.NoMatchMeaning | extension.go:84-86 | the no-match error occurs exactly when no parsing release satisfies the constraint |
| Text.TrimSpaceMeaning | internal/admintwiglinter/fix_passwordfield.go:77 | `strings.TrimSpace` keeps the middle of the text and cuts only white space from each end |
| Text.TrimSpace | internal/admintwiglinter/fix_passwordfield.go:77 | the result starts and ends with no white space |
| Text.TrimLeftMeaning | internal/admintwiglinter/fix_passwordfield.go:77 | trimming the front drops only leading white space |
| Text.TrimRightMeaning | internal/admintwiglinter/fix_passwordfield.go:77 | trimming the back drops only trailing white space |
| Text.ToLower | internal/admintwiglinter/fix_icon.go:44 | `strings.ToLower` lower-cases each ASCII letter and keeps the length |
| Text.ToLowerIdempotent | internal/admintwiglinter/fix_icon.go:44 | lower-casing twice is lower-casing once |
| Text.ToLowerOfLower | internal/admintwiglinter/fix_icon.go:44 | a string without upper-case letters is its own lower case |
| Text.TrimPrefix | internal/tool/admin_twig.go:50 | `strings.TrimPrefix` removes the prefix when present, and otherwise nothing |
| Text.ContainsIff | internal/tool/result.go:48 | `strings.Contains` holds exactly when the fragment occurs somewhere |
| Text.ReplaceAllAbsent | internal/admintwiglinter/fix_select_field.go:57-58 | `strings.ReplaceAll` without an occurrence returns its input |
| Text.ReplaceAllByte | internal/admintwiglinter/fix_tabs.go:104 | replacing one byte by another keeps the length and changes exactly those bytes |
| Text.ReplaceFirstAbsent | internal/admintwiglinter/fix_passwordfield.go:79 | `strings.Replace(..., 1)` without an occurrence returns its input |
| Text.Split | cmd_shared.go:17 | `strings.Split` yields at least one piece and no piece holds the separator |
| Text.SplitJoin | cmd_shared.go:17 | the pieces joined back give the text, and there is one more piece than separators |
| Text.JoinSplit | internal/admintwiglinter/fix_tabs.go:102 | parts without the separator, joined and split again, give the same parts |
| Text.SplitFreePrefix | cmd_shared.go:17 | a piece free of the separator at the front joins the first part of the split |
| Text.IntToString | reporter.go:27 | `%d` is non-empty and signed exactly for negative numbers |
| Text.JsonEscapeByte | internal/admintwiglinter/fix_select_field.go:125 | the byte escape `encoding/json` writes: quote, backslash, control bytes and `<`, `>`, `&` escaped, every other byte copied |
| Text.JsonEscapeNoBareQuote | internal/admintwiglinter/fix_select_field.go:125 | an encoded string holds no unescaped quote |
| Text.JsonString | internal/admintwiglinter/fix_select_field.go:125 | a JSON string literal is quoted |

## Left out

- The directory walk is not modelled. The engine is modelled per file:
  - `filepath.WalkDir` and `GetAdminFolders` are outside the model;
  - `os.ReadFile`'s outcome is a parameter;
  - the text `os.WriteFile` would write is returned.
- `getShopwareVersions` fetches the release list over HTTP, so its
  outcome is a parameter. So are the extension's constraint lookup and
  the decoded `require` map of composer.json.
- The version library is outside the model:
  - `version.NewVersion`, the version order, `String` and
    `Constraints.Check` are parameters;
  - `sort.Sort` is modelled as an insertion sort on a total preorder,
    and versions of equal rank may come out in another order;
  - `version.Must` on the default release is a precondition that
    `6.7.0.0` parses.
- MainExtension.DetermineVersionRange requires the requirement to be a
  valid constraint, because `version.MustConstraints` panics otherwise.
- The selection of rules is a parameter:
  - `GetFixers` and `shopware67Constraint` are defined outside the files
    modelled here;
  - the engine takes the selected rules as an ordered list;
  - Fixers.Supporting states that every rule applies under the same
    constraint.
- The rules' Fix never returns an error, so the engine's fixer-error
  path (`internal/tool/admin_twig.go:98-100`) cannot occur and is not
  modelled.
- The tree is a value. The rules rewrite elements through pointers; the
  model returns the new tree, which is the same tree because no node is
  shared.
- The popover rule's slice aliasing is modelled on a fixed-size array
  only inside FixPopover.FixAsWritten.
- A parse failure is modelled as an error only. The partial node list
  the Go parser returns beside the error is dropped, because both
  callers ignore it.
- HtmlParserSpec.Parse: the round trip Parse(DumpAll(t)) == Ok(t) is
  proved only for trees whose attribute values hold no `"`
  (HtmlRoundTrip.DumpParses). Dump writes every value in quotes without
  escaping, so a value holding `"` does not come back
  (HtmlRoundTrip.QuoteInValueBreaksRoundTrip). The check-after-fix
  properties are therefore stated on the tree, not on the written text.
- HtmlParserSpec.ParseElement: its own contract states only that a
  successful element moves the cursor forward within the input. What it
  builds is stated by ElementWellFormed, SelfClosingExactly,
  EmptyNameRefused, ElementSelfClosing and ElementWithChildren.
- Line numbers are not modelled. `node.Line` names a field the
  `ElementNode` struct does not declare, so that field is not part of
  this model; the model's `line` is 0 on every parsed element.
- On bytes ≥ 0x80, `%q` and `encoding/json` are modelled as copying the
  byte. The escaping of invalid UTF-8 and of U+2028/U+2029 is not
  modelled.
- `filepath.Ext` is modelled with '/' as the only separator.
- `strings.TrimSpace` and `strings.ToLower` are modelled on ASCII
  only; Unicode white space and letters are not treated.
- The mutexes around the result lists, and the concurrency they guard,
  are not modelled.
- `tool.Name()` is a parameter of CmdShared.FilterTools.
  `getToolConfig` and `guessExtension` are not modelled.
- The message text of each rule's diagnostic is a constant. The engine's
  result lemmas take the message function as a parameter, and the engine
  itself uses Fixers.Message.

## Findings

| source | as written | input that shows it | evidently intended | confidence | as-written member | corrected member |
|---|---|---|---|---|---|---|
| internal/admintwiglinter/fixer_popover.go:41-50 | the loop ranges over `node.Attributes` and removes `:zIndex`/`:resizeWidth` with `append(a[:n], a[n+1:]...)` on the same slice; the range keeps the old length and index | `<sw-popover :zIndex="1" :resizeWidth="2" x="3">`: `:resizeWidth` is skipped and survives. `<sw-popover :zIndex="1" v-if="o" x="3">`: the `v-if` is skipped and `:isOpened="true"` is added beside it. `<sw-popover :zIndex="1" :resizeWidth="2">`: the second removal slices past the length and panics | every `:zIndex` and `:resizeWidth` removed, every `v-if` renamed to `:isOpened`, and `:isOpened="true"` appended only when there was no `v-if` | not executed | FixPopover.FixAsWritten, FixPopover.AsWrittenSkipsAfterRemoval, FixPopover.AsWrittenMissesVIf, FixPopover.AsWrittenPanicsOnTwoRemovals | FixPopover.Fix, FixPopover.FixedRemovesBoth, FixPopover.FixedRenamesVIf, FixPopover.AttributeTable |
