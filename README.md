# react-wysiwyg-editor: the editing core, modelled in Dafny

This project models the editing core of `react-wysiwyg-editor`, a React rich-text editor that
comes in two variants and a wrapper:

- The function-component editor (`WysiwygEditor`) keeps the markup in a `contentEditable`
  div and records every edit in a linear undo history. It turns `{{path}}` placeholders into
  `template-binding` marker spans and refreshes those markers when the bindings change. Before
  it replaces the markup, it saves the caret as flat offsets and restores the caret afterwards.
  It also builds table markup from rows, columns and styles.
- The class-based editor (`RichEditor`) has its own history. It toggles inline formats by
  unwrapping the nearest matching ancestor or wrapping the selection, merges adjacent equal
  siblings, and wraps loose content in a paragraph. It sanitizes pasted markup against an
  allow-list and turns pasted plain text into one paragraph per line. It also dispatches the
  undo, redo and format shortcuts.
- The format-state hook (`useFormatState`) derives the toolbar state from the selection. It
  decides bold, italic and underline with a three-valued fold over the selected elements,
  then adds alignment, lists, font and colour.
- The wrapper component (`ModernEditorWrapper`) is meant to create the class-based editor and
  re-run the binding processor over its markup. It maps toolbar controls to format requests,
  fills the editor from templates, and builds tables. As written it imports `ModernEditor`,
  which the editor module does not export, so the editor is never created and every handler
  stops at its null check (see "## Findings"). The handler members are modelled with the editor
  present, taking the import to be the class-based editor, as the code evidently intends.

The document is a tree datatype (`Dom.Node`: text, element, or any other node kind). The
editor's own element is `Root(dom)`, and a node is addressed by its child-index path from that
root. A browser selection is a pair of boundary points (path, offset). Reading and writing
`innerHTML` are two functions the objects receive as parameters: `parse` and `serialize`.
Objects the source updates in place are classes: the editor, the class-based editor, the
format tracker, the wrapper and the caret finder. Code that computes values is written as
functions with lemmas. The binding walk passes a falsy value through (`acc && acc[part]`), so
`{{a.b}}` with `a` bound to `0` shows `0`.

Modules, in dependency order:

- `Strings`: trimming, splitting, case mapping, integer printing.
- `Dom`: nodes, paths, tree order, `textContent`.
- `History`: the undo log.
- `Bindings`: placeholder replacement and marker refresh.
- `Caret`: boundary-point order, flat caret offsets and their inverse search.
- `TableMarkup`: the table builder.
- `TreeEdit`: ancestor search, unwrap, wrap, sibling merge, paragraph wrap.
- `Sanitizer`: allow-list sanitizing.
- `WysiwygEditor`: the function-component editor.
- `RichEditor`: the class-based editor.
- `FormatState`: the format-state hook.
- `EditorWrapper`: the wrapper.

## Model

| member | source | states |
|---|---|---|
| Strings.Trim | src/WysiwygEditor.tsx:38 | `key.trim()`: the result is the input minus its leading and trailing white space, and neither of its ends is white space |
| Strings.Split | src/WysiwygEditor.tsx:39 | `split(".")` gives at least one part, and no part contains the separator |
| Strings.JoinSplit | src/WysiwygEditor.tsx:39 | joining the parts of a split with the separator gives back the input |
| Strings.Lower | src/ModernWysiwygEditor.tsx:172 | `toLowerCase()` on tag and key names, for ASCII: each character is mapped on its own, A-Z to a-z and every other character kept, so the length is kept |
| Dom.GetAttribute | src/WysiwygEditor.tsx:235 | `getAttribute` finds a value exactly when an attribute of that name exists, and the value it gives is that attribute's |
| Dom.ReplaceKeepsText | src/ModernWysiwygEditor.tsx:120-131 | replacing a subtree with one of equal text keeps the whole tree's `textContent` |
| Dom.CommonPrefix | src/ModernWysiwygEditor.tsx:119 | `commonAncestorContainer` is the longest common prefix of the boundary paths |
| Dom.PrecedesTotal | src/hooks/useFormatState.ts:133 | tree order on nodes is total and strict |
| History.Save | src/WysiwygEditor.tsx:244-248 | saving keeps the entries up to the index, appends the new content, and points at it; nothing is left to redo |
| History.Undo | src/WysiwygEditor.tsx:322-338 | undo moves the index back by one when it is above 0; otherwise nothing changes; the entries are never touched |
| History.Redo | src/WysiwygEditor.tsx:340-356 | redo moves the index forward by one when there is a later entry; otherwise nothing changes |
| History.UndoAfterSave | src/WysiwygEditor.tsx:244-248 | undo right after a save shows the content current before the save, and redo brings back the saved state |
| History.RedoUndoes | src/WysiwygEditor.tsx:322-356 | redo reverses an undo that moved |
| History.UndoRedoes | src/WysiwygEditor.tsx:322-356 | undo reverses a redo that moved |
| History.UndoTimesIndex | src/WysiwygEditor.tsx:322-338 | undoing n times lands on index max(0, index - n) |
| History.SaveAfterUndoForgets | src/WysiwygEditor.tsx:244-248 | a save after undoing drops the undone entries |
| Bindings.ResolveMatchesLookup | src/WysiwygEditor.tsx:39 | the `reduce` walk gives the value reached along the path when every segment exists; when a segment is missing it gives a falsy value (undefined, except where a falsy value stops the walk early) |
| Bindings.ResolveFromFalsy | src/WysiwygEditor.tsx:39 | once the accumulator is falsy, the remaining segments leave it as it is |
| Bindings.MatchLength | src/WysiwygEditor.tsx:37 | a match of `\{\{([^}]+)\}\}` starts with `{{`, ends with `}}`, and holds at least one character and no `}` between them |
| Bindings.MatchPlaceholder | src/WysiwygEditor.tsx:37 | a placeholder with a non-empty key free of `}` is matched exactly, whatever follows it |
| Bindings.MatchNeedsOpening | src/WysiwygEditor.tsx:37 | nothing matches at a position that does not hold `{{` |
| Bindings.ScanCoversInput | src/WysiwygEditor.tsx:37-41 | the global replace cuts the input into pieces without losing or reordering a character |
| Bindings.ProcessBindingsIsReplace | src/WysiwygEditor.tsx:35-42 | the empty-string guard changes nothing: `processBindings("")` is `""`, and otherwise it is the same replace the wrapper runs |
| Bindings.ReplaceTokensStep | src/WysiwygEditor.tsx:37-41 | text before a placeholder is copied unchanged, and the placeholder becomes a marker for its trimmed key |
| Bindings.ReplaceTokensNoPlaceholder | src/WysiwygEditor.tsx:37-41 | markup with no `{{` is returned unchanged |
| Bindings.ReplaceTokensWithoutBraces | src/WysiwygEditor.tsx:37-41 | markup with no `{` is returned unchanged |
| Bindings.TopLevelPlaceholder | src/WysiwygEditor.tsx:37-41 | `{{key}}` naming a defined top-level binding becomes `<span class="template-binding" data-binding="key">value</span>`, and the text around it is unchanged |
| Bindings.NestedPlaceholder | src/WysiwygEditor.tsx:37-41 | `{{a.b}}` walks into the object bound to `a`; a missing `b` keeps the placeholder text inside the marker |
| Bindings.SolePlaceholder | src/WysiwygEditor.tsx:37-41 | markup that is one placeholder becomes exactly one marker |
| Bindings.UnresolvedShowsPlaceholder | src/WysiwygEditor.tsx:40 | a placeholder whose path resolves to undefined keeps the original match as its text |
| Bindings.SecondPassKeepsResolved | src/ModernEditorWrapper.tsx:63-73 | re-running the replace leaves markup unchanged when every placeholder resolved to text without `{` |
| Bindings.MarkerWithPlaceholderRewrapped | src/ModernEditorWrapper.tsx:63-73 | a marker that still shows its placeholder is matched again, and a new marker is nested inside it |
| Bindings.SecondPassRewrapsUnresolved | src/ModernEditorWrapper.tsx:63-73 | re-running the replace over its own output wraps an unresolved placeholder a second time |
| Bindings.RefreshSeq | src/WysiwygEditor.tsx:231-241 | the refresh rewrites each top-level node on its own: as many nodes, the i-th being the refresh of the i-th |
| Bindings.RefreshForgetsEarlier | src/WysiwygEditor.tsx:231-241 | a refresh depends only on the latest bindings: refreshing twice equals refreshing once with the second bindings |
| Bindings.RefreshSeqForgetsEarlier | src/WysiwygEditor.tsx:231-241 | the same, for the editor's whole content |
| Bindings.RefreshWithoutMarkers | src/WysiwygEditor.tsx:231-241 | markup with no `.template-binding` element is left exactly as it is |
| Bindings.RefreshSeqWithoutMarkers | src/WysiwygEditor.tsx:231-241 | the same, for the editor's whole content |
| Bindings.MarkerNodeIsMarker | src/WysiwygEditor.tsx:233 | a marker the replace builds matches the selector `.template-binding` |
| Bindings.RefreshMarkerNode | src/WysiwygEditor.tsx:234-239 | a marker's `textContent` becomes the value its `data-binding` path resolves to, and its tag and attributes are kept |
| Bindings.RefreshRewritesMarker | src/WysiwygEditor.tsx:231-241 | in text, marker, text, only the marker's text changes |
| Caret.CountIsTextPlusBreaks | src/WysiwygEditor.tsx:86-98 | `countPosition` is the length of the `textContent` plus the number of `<br>` elements |
| Caret.PositionAntisymmetric | src/hooks/useFormatState.ts:133 | boundary-point comparison is antisymmetric |
| Caret.CountSeqConcat | src/WysiwygEditor.tsx:92-95 | an element's count is the sum of its children's counts, so counts add over concatenation |
| Caret.TopIndex | src/WysiwygEditor.tsx:100-112 | the top-level child that contains a boundary is the first path step, when that step is in range |
| Caret.GetCaretPosition | src/WysiwygEditor.tsx:72-130 | the loop gives the flat offsets of `CaretPosition`, and `length == end - start` |
| Caret.CollapsedTextCaret | src/WysiwygEditor.tsx:100-112 | a caret in a top-level text node is at the counts of the earlier siblings plus its offset |
| Caret.NestedCaretSnapsToEnd | src/WysiwygEditor.tsx:104-108 | a caret inside a nested node counts that node's whole top-level child, so the caret moves to that child's end |
| Caret.CrossNodeSelectionMeasuredInStartNode | src/WysiwygEditor.tsx:113-121 | `end` uses the end offset only when the start and end lie in the same top-level child |
| Caret.LocateNodeSound | src/WysiwygEditor.tsx:146-167 | `findPosition` finds the first text node where the running total reaches the target, with `0 <= offset <= length`: when the target is ahead of the total no earlier text reaches it, and otherwise no text node at all comes before the hit; it misses exactly when there is no text or the total falls short |
| Caret.PositionFinder.FindPosition | src/WysiwygEditor.tsx:146-167 | the recursive search with its shared `currentPos` computes `LocateNode`, and leaves `currentPos` where the search stopped |
| Caret.RestoreRange | src/WysiwygEditor.tsx:168-195 | the two searches, with `currentPos` reset between them, give `RestoredRange` |
| Caret.RestoredRangeSound | src/WysiwygEditor.tsx:168-195 | a restored range has both ends in text nodes; a start or end past the text content restores nothing |
| Caret.SpannedRangeOrdered | src/WysiwygEditor.tsx:184-186 | `setStart` then `setEnd` never leave a range that ends before it starts; the start point is kept unless the end point comes before it |
| Caret.RestoredRangeOrdered | src/WysiwygEditor.tsx:168-195 | a restored range never ends before it starts |
| Caret.InvertedSnapshotCollapses | src/WysiwygEditor.tsx:184-186 | in `<b>hello</b>`, a snapshot with start 5 and end 3 restores as a caret after "hel" |
| Caret.FlatTextRoundTrip | src/WysiwygEditor.tsx:86-167 | over text-only content every target is found again, at the matching text node and offset |
| Caret.BreakMakesCaretDrift | src/WysiwygEditor.tsx:86-167 | a `<br>` counts 1 on the way out but 0 on the way back, so the restored caret moves one character |
| TableMarkup.BuildTable | src/WysiwygEditor.tsx:415-423 | the nested loops build `TableHtml` |
| TableMarkup.TableCounts | src/WysiwygEditor.tsx:415-423 | the markup has `max(rows, 0)` rows and `max(rows, 0) * max(columns, 0)` cells |
| TableMarkup.TableCellAt | src/ModernEditorWrapper.tsx:100-108 | cell (i, j) is the cell markup, at the offset given by its row and column |
| TableMarkup.CellEmbedsStyles | src/ModernEditorWrapper.tsx:104 | each cell embeds the border colour and the padding in its style, and holds `&nbsp;` |
| TableMarkup.TableEmbedsBorderColor | src/ModernEditorWrapper.tsx:100 | the table's own style embeds the border colour |
| TreeEdit.FindParentWithTag | src/ModernWysiwygEditor.tsx:171-182 | the walk finds the nearest ancestor-or-self element with the lower-cased tag, stopping below the editor root |
| TreeEdit.NearestWithTagUnique | src/ModernWysiwygEditor.tsx:171-182 | that nearest ancestor is unique |
| TreeEdit.CommonAncestorValid | src/ModernWysiwygEditor.tsx:119 | the common ancestor of a range inside the editor is a node of the editor |
| TreeEdit.Unwrap | src/ModernWysiwygEditor.tsx:122-131 | unwrapping puts the element's children, in order, in its place; its siblings are untouched |
| TreeEdit.UnwrapKeepsText | src/ModernWysiwygEditor.tsx:122-131 | unwrapping keeps the text content |
| TreeEdit.SpliceShape | src/ModernWysiwygEditor.tsx:216-238 | replacing a range with nodes puts the first of them at the insertion point and leaves the rest of the container in order |
| TreeEdit.WrapKeepsText | src/ModernWysiwygEditor.tsx:133-158 | wrapping the selected contents in a new element keeps the text content |
| TreeEdit.WrapThenUnwrap | src/ModernWysiwygEditor.tsx:111-161 | toggling a format on a range and then off again gives back the original markup |
| TreeEdit.ElementsInSound | src/ModernWysiwygEditor.tsx:252 | every path `getElementsByTagName` lists leads to a descendant element with that tag, and the list is as long as the number of such elements |
| TreeEdit.ElementsInOrdered | src/ModernWysiwygEditor.tsx:252 | the list is in strictly increasing tree order |
| TreeEdit.ElementsInComplete | src/ModernWysiwygEditor.tsx:252 | a path is listed exactly when it leads to a descendant element with that tag |
| TreeEdit.Merge | src/ModernWysiwygEditor.tsx:254-263 | a merge appends the current element's children to its preceding sibling and removes the current element |
| TreeEdit.MergeCount | src/ModernWysiwygEditor.tsx:248-265 | each merge removes exactly one element with that tag, so the merge loop ends |
| TreeEdit.MergeKeepsText | src/ModernWysiwygEditor.tsx:254-263 | a merge keeps the text content |
| TreeEdit.MergeStepFacts | src/ModernWysiwygEditor.tsx:252-263 | one turn of the loop keeps the text and never adds an element with the tag |
| TreeEdit.MergePassFacts | src/ModernWysiwygEditor.tsx:250-264 | the loop for one tag, from the last index down to 1 with the list read again each turn, keeps the text and never adds an element with the tag |
| TreeEdit.MergeTagsKeepsText | src/ModernWysiwygEditor.tsx:248-265 | the loops over the mergeable tags in turn keep the text |
| TreeEdit.AdjacentSameStyleMerge | src/ModernWysiwygEditor.tsx:254-263 | two adjacent elements with the tag and the same `style` become one element holding the children of both, in order, with the first one's attributes |
| TreeEdit.AdjacentOtherStyleKept | src/ModernWysiwygEditor.tsx:255 | two adjacent elements with different `style` values are left alone |
| TreeEdit.SeparatedElementsKept | src/ModernWysiwygEditor.tsx:254 | two elements with the tag that a text node separates are not `previousSibling`s, and are left alone |
| TreeEdit.WrapInParagraph | src/ModernWysiwygEditor.tsx:267-272 | wrapping in `<p>` creates a block element and keeps the text content |
| Sanitizer.SetAttribute | src/ModernWysiwygEditor.tsx:363 | `setAttribute` adds the attribute or replaces the one of that name, and keeps every other attribute |
| Sanitizer.SetAttributeDistinct | src/ModernWysiwygEditor.tsx:361-365 | attribute names stay distinct |
| Sanitizer.CopyAllowedFilters | src/ModernWysiwygEditor.tsx:355-365 | an attribute survives exactly when its name is in the tag's list or the `*` list; its value is copied unchanged |
| Sanitizer.SanitizeIsClean | src/ModernWysiwygEditor.tsx:341-381 | the output has only allowed tags and only allowed attributes |
| Sanitizer.SanitizeClean | src/ModernWysiwygEditor.tsx:341-381 | a clean tree is returned as it is |
| Sanitizer.SanitizeIdempotent | src/ModernWysiwygEditor.tsx:383-393 | sanitizing twice is the same as sanitizing once |
| Sanitizer.SanitizeKeepsText | src/ModernWysiwygEditor.tsx:341-381 | text content is kept, with a disallowed element collapsed to its `textContent`; only nodes without text are dropped |
| WysiwygEditor.FontSizeLevel | src/WysiwygEditor.tsx:298-302 | `min(7, max(1, floor(parseInt(size) / 4)))` lies in [1, 7]; `parseInt` giving NaN is the only failure |
| WysiwygEditor.ParseIntOfIntToString | src/WysiwygEditor.tsx:299 | `parseInt` reads back a printed integer followed by a non-digit suffix such as `px` |
| WysiwygEditor.FontSizeOfPixels | src/WysiwygEditor.tsx:298-302 | for `"<n>px"` the level is 1 below 8, 7 from 28 up, and `n / 4` between them; `"16px"` gives 4 |
| WysiwygEditor.FontSizeMonotone | src/WysiwygEditor.tsx:298-302 | a larger size never gives a smaller level |
| WysiwygEditor.FontSizeWithoutNumber | src/WysiwygEditor.tsx:299 | a size that does not start with a number gives NaN |
| WysiwygEditor.Editor.constructor | src/WysiwygEditor.tsx:44-51 | history `[content]`, index 0, markup from the processed content, no selection stored |
| WysiwygEditor.Editor.SaveToHistory | src/WysiwygEditor.tsx:244-248 | the log becomes `History.Save` of the old one; nothing else changes |
| WysiwygEditor.Editor.HandleChange | src/WysiwygEditor.tsx:250-256 | the edited markup becomes the content and is saved |
| WysiwygEditor.Editor.GetCaret | src/WysiwygEditor.tsx:72-130 | without a selection there is no snapshot; otherwise the snapshot is `CaretPosition` |
| WysiwygEditor.Editor.SetCaretPosition | src/WysiwygEditor.tsx:133-197 | the state is recorded; when both ends are found the selection becomes the restored range, which never ends before it starts; otherwise the selection is kept |
| WysiwygEditor.Editor.HandleUndo | src/WysiwygEditor.tsx:322-338 | the log takes `History.Undo`, and the content and markup become the entry now current; at the start nothing changes |
| WysiwygEditor.Editor.HandleRedo | src/WysiwygEditor.tsx:340-356 | the log takes `History.Redo`, and the content and markup become the entry now current; at the end nothing changes |
| WysiwygEditor.Editor.ContentEffect | src/WysiwygEditor.tsx:221-228 | the markup is replaced by the processed content unless it already serializes to it, so afterwards it serializes to the processed content |
| WysiwygEditor.Editor.BindingsEffect | src/WysiwygEditor.tsx:231-242 | the markers are refreshed and the content takes the resulting markup; the history is unchanged |
| WysiwygEditor.Editor.HandleTemplate | src/WysiwygEditor.tsx:390-404 | the markup shows the processed template, while the content and history record the raw template |
| WysiwygEditor.Editor.ShowTablePopover | src/WysiwygEditor.tsx:472-478 | the current selection, when there is one, is stored for the table |
| WysiwygEditor.Editor.HandleTable | src/WysiwygEditor.tsx:406-450 | without a stored selection nothing happens; otherwise the table replaces the stored range and the new markup is saved |
| RichEditor.SplitLines | src/ModernWysiwygEditor.tsx:207 | `split(/\r\n\|\r\|\n/)` gives at least one line, and no line holds a line break |
| RichEditor.PlainTextLines | src/ModernWysiwygEditor.tsx:206-214 | each line becomes its own `<p>` in order, whichever of `\r\n`, `\r` or `\n` ends it |
| RichEditor.SplitLinesWithoutCR | src/ModernWysiwygEditor.tsx:207 | without `\r` the lines are the `\n`-separated parts, and joining them gives back the text |
| RichEditor.PasteContent | src/ModernWysiwygEditor.tsx:202-214 | HTML data wins; otherwise the plain text is converted; the result is empty only when both are empty |
| RichEditor.KeyCommandIgnoresCase | src/ModernWysiwygEditor.tsx:79-104 | the key is compared case-insensitively, and Shift+Z with Ctrl or Meta means redo |
| RichEditor.KeyCommandKeys | src/ModernWysiwygEditor.tsx:79-104 | with Ctrl or Meta held, exactly the keys b, i, u and z (either case) are commands; without them no key is |
| RichEditor.ToggledKeepsText | src/ModernWysiwygEditor.tsx:111-161 | toggling a format keeps the text content |
| RichEditor.ToggleTwice | src/ModernWysiwygEditor.tsx:111-161 | toggling a format on and off again restores the markup |
| RichEditor.MergeLoop | src/ModernWysiwygEditor.tsx:250-264 | the loop over the live list computes `MergePass`, keeping the root element |
| RichEditor.RichEditor.constructor | src/ModernWysiwygEditor.tsx:41-58 | history `[initialContent]`, index 0, content and markup from the initial content |
| RichEditor.RichEditor.UpdateContent | src/ModernWysiwygEditor.tsx:280-291 | unchanged content changes nothing; new content is saved with `History.Save` and reported to `onChange` once |
| RichEditor.RichEditor.HandleInput | src/ModernWysiwygEditor.tsx:64-72 | an input event passes the edited markup to `updateContent` |
| RichEditor.RichEditor.Undo | src/ModernWysiwygEditor.tsx:293-300 | the log takes `History.Undo`; when it moved, the markup shows the entry now current and that entry is reported to `onChange`, and otherwise nothing changes |
| RichEditor.RichEditor.Redo | src/ModernWysiwygEditor.tsx:302-309 | the log takes `History.Redo`; when it moved, the markup shows the entry now current and that entry is reported to `onChange`, and otherwise nothing changes |
| RichEditor.RichEditor.MergeAdjacent | src/ModernWysiwygEditor.tsx:250-264 | the markup becomes `MergePass` of the old markup for that tag; content and history are unchanged |
| RichEditor.RichEditor.NormalizeContent | src/ModernWysiwygEditor.tsx:245-273 | `Normalized`: the merged markup is `MergeTags` over the mergeable tags in their order, and without a block element the result is the merged markup in one `<p>`; content and history are unchanged |
| RichEditor.RichEditor.NormalizedKeepsText | src/ModernWysiwygEditor.tsx:248-265 | normalizing keeps the text of the merged markup |
| RichEditor.RichEditor.ToggleFormat | src/ModernWysiwygEditor.tsx:111-161 | `ToggledFrom`: the nearest ancestor with the tag is found; it is unwrapped, or else the selection is wrapped, or a collapsed caret gets an element holding a zero-width space, with the caret selecting that space; the result is `Normalized` and `Reported` (saved and handed to `onChange` once when its markup changed, neither otherwise); without a selection or a toggle nothing changes |
| RichEditor.RichEditor.HandlePaste | src/ModernWysiwygEditor.tsx:190-239 | without a selection, without content or for a range across containers nothing changes; otherwise the sanitized, re-parsed content is `Inserted` over the range (spliced, `Normalized` and `Reported` to the log and `onChange`), and content whose sanitized form re-parses to itself inserts only allowed tags and attributes |
| RichEditor.RichEditor.InsertFragment | src/ModernWysiwygEditor.tsx:227-237 | the fragment is spliced in place of the range, the caret is collapsed right after it, the children are `Normalized`, and the result is `Reported`: saved and handed to `onChange` once when the markup changed, neither otherwise |
| RichEditor.RichEditor.HandleKeyDown | src/ModernWysiwygEditor.tsx:79-104 | the default is prevented exactly for a command; a format key toggles its tag as `ToggledFrom` says; undo and redo are `Undone` and `Redone` (log, markup and `onChange` report); any other key changes nothing |
| FormatState.DeclarationValue | src/hooks/useFormatState.ts:102-106 | the value read from an element's `style` is empty when no declaration names the property |
| FormatState.LastDeclarationWins | src/hooks/useFormatState.ts:102-106 | the last declaration of a property gives its value |
| FormatState.CreatedFormatsAreRecognised | src/hooks/useFormatState.ts:97-112 | `strong` and `b` count as bold, `em` and `i` as italic, `u` as underline |
| FormatState.NodeContentsIntersectNode | src/hooks/useFormatState.ts:153-155 | a node's own contents range always intersects the node, so every collected node is tested |
| FormatState.AncestorSelected | src/hooks/useFormatState.ts:122-146 | when the common ancestor is an element, it is the first node collected, so "no nodes" happens only inside one text node |
| FormatState.FoldMeaning | src/hooks/useFormatState.ts:148-170 | the fold is `true` exactly when there are nodes and all are formatted, `false` exactly when none is formatted, and `"-"` otherwise |
| FormatState.FoldMarks | src/hooks/useFormatState.ts:149-170 | the `forEach` flag loop computes the fold |
| FormatState.ElementToCheck | src/hooks/useFormatState.ts:90 | a text node is checked through its parent element |
| FormatState.ActiveForSelection | src/hooks/useFormatState.ts:115-171 | the collecting loop and the fold compute `SelectionActivity` |
| FormatState.ActiveSelectionHasActiveAncestor | src/hooks/useFormatState.ts:115-171 | a selection reported as formatted has a formatted common ancestor |
| FormatState.SelectionInsideOneText | src/hooks/useFormatState.ts:143-146 | a selection inside a single text node is reported unformatted, even inside `<b>` |
| FormatState.ClosestAgreesWithFindParent | src/hooks/useFormatState.ts:180-181 | `closest(tag)` finds an element exactly when the nearest-ancestor search does |
| FormatState.StripQuotes | src/hooks/useFormatState.ts:183 | `replace(/['"]/g, "")` leaves no quote and is no longer than its input |
| FormatState.StripQuotesConcat | src/hooks/useFormatState.ts:183 | quote removal works piece by piece |
| FormatState.StripQuotesOfQuotedName | src/hooks/useFormatState.ts:183 | a quoted family name loses exactly its quotes |
| FormatState.Shown | src/hooks/useFormatState.ts:174-176 | a flag is shown only when the fold gives `true`; `"-"` shows false |
| FormatState.Observed | src/hooks/useFormatState.ts:173-185 | at most one alignment flag is set, and the font family holds no quotes |
| FormatState.CaretInStrongIsBold | src/hooks/useFormatState.ts:90-118 | a caret in text inside `<strong>` shows bold |
| FormatState.MixedSelectionIsNotBold | src/hooks/useFormatState.ts:164-176 | a selection with both a bold and a non-bold element gives `"-"` and shows not-bold |
| FormatState.FormatTracker.constructor | src/hooks/useFormatState.ts:47-59 | all flags false, `16px`, `Arial`, `#000000` |
| FormatState.FormatTracker.CheckFormatting | src/hooks/useFormatState.ts:68-186 | without a selection nothing changes; otherwise the state becomes `Observed` |
| EditorWrapper.CreateElement | src/ModernEditorWrapper.tsx:80-83 | the element has the format's lower-cased tag, no children, and the attributes that `setAttribute` leaves in entry order |
| EditorWrapper.LastEntryWins | src/ModernEditorWrapper.tsx:81-83 | the last entry for a key sets that attribute |
| EditorWrapper.ElementAttrsDistinct | src/ModernEditorWrapper.tsx:81-83 | the created element's attribute names are distinct |
| EditorWrapper.StyleRoundTrip | src/ModernEditorWrapper.tsx:132-155 | a `style` of the form `property: value` reads back as that value |
| EditorWrapper.ToolbarRequest | src/ModernEditorWrapper.tsx:128-163 | the style controls send a single `style` attribute; link and image send nothing when the prompt gives no URL |
| EditorWrapper.InlineButtonsAreRecognised | src/ModernEditorWrapper.tsx:129-131 | the elements bold, italic and underline create are recognised by the format-state hook |
| EditorWrapper.FontSizeReadBack | src/ModernEditorWrapper.tsx:132 | the font-size span reads back the chosen size |
| EditorWrapper.FontFamilyReadBack | src/ModernEditorWrapper.tsx:133 | the font-family span reads back the chosen font |
| EditorWrapper.ColorReadBack | src/ModernEditorWrapper.tsx:134 | the colour span reads back the chosen colour |
| EditorWrapper.Wrapper.constructor | src/ModernEditorWrapper.tsx:35-37 | no editor before mounting |
| EditorWrapper.Wrapper.MountAsWritten | src/ModernEditorWrapper.tsx:4-75 | as written: the construction of the unexported `ModernEditor` throws, so no editor is created and the binding effect finds none |
| EditorWrapper.Wrapper.Mount | src/ModernEditorWrapper.tsx:35-75 | as intended, taking the import to be the class-based editor: the editor is created once over the content, and then the binding effect runs over its markup |
| EditorWrapper.TableAfterMountAsWritten | src/ModernEditorWrapper.tsx:4-112 | as written: after the first commit a table request builds nothing, because there is no editor |
| EditorWrapper.TableAfterMount | src/ModernEditorWrapper.tsx:35-112 | as intended: after the first commit an editor exists, the table markup is built, and the popover closes |
| EditorWrapper.Wrapper.ApplyBindings | src/ModernEditorWrapper.tsx:60-75 | the markup is replaced by the replace run over its serialization; content and history are unchanged |
| EditorWrapper.Wrapper.BindingsChanged | src/ModernEditorWrapper.tsx:60-75 | new bindings are applied to the current markup |
| EditorWrapper.Wrapper.HandleFormat | src/ModernEditorWrapper.tsx:77-94 | `Formatted`: with attributes the selection is wrapped and `Normalized`, keeping the text, the content and the history; without them the editor's toggle runs as `ToggledFrom` says: the nearest ancestor is found, and the toggled markup is `Normalized` and `Reported` to the log and `onChange`; an untoggled selection changes nothing |
| EditorWrapper.Wrapper.HandleTemplate | src/ModernEditorWrapper.tsx:114-124 | the markup shows the processed template; content and history are unchanged |
| EditorWrapper.Wrapper.HandleTable | src/ModernEditorWrapper.tsx:96-112 | as written, with an editor present (as `Mount` assumes): the table markup is built and nothing else changes, because the `insert` call throws; without an editor nothing is built |
| EditorWrapper.Wrapper.Insert | src/ModernEditorWrapper.tsx:110 | as intended (`InsertedMarkup`): the parsed markup replaces the selection, its first node at the insertion point, and is `Reported`: saved and handed to `onChange` once when the markup changed; another selection changes nothing |
| EditorWrapper.Wrapper.HandleTableInserting | src/ModernEditorWrapper.tsx:96-112 | as intended: the table markup is inserted as `InsertedMarkup` says and the popover closes |
| EditorWrapper.Wrapper.HandleControl | src/ModernEditorWrapper.tsx:128-150 | as written, with an editor present (as `Mount` assumes): each control does its request as `HandleRequest` does; link and image change nothing, because the `insert` call throws |
| EditorWrapper.Wrapper.HandleControlInserting | src/ModernEditorWrapper.tsx:135-146 | as intended: link and image insert their markup as `InsertedMarkup` says; every other control does its request as `HandleRequest` does |
| EditorWrapper.Wrapper.HandleRequest | src/ModernEditorWrapper.tsx:128-150 | `Requested`: a format request is `Formatted`, undo and redo are the editor's `Undone` and `Redone` (log, markup and `onChange` report), an empty request changes nothing; as written an insertion throws and changes nothing |

## Left out

- Ranges whose ends lie in different nodes. Wrapping, toggling, pasting and inserting are modelled for ranges inside one container (`TreeEdit.Spliceable`). Other ranges leave the markup unchanged, where the browser would split the boundary nodes with `extractContents` or `surroundContents`.
- HTML parsing and serialization (`innerHTML`, `DOMParser`, with the parser's implied end tags) are the `parse` and `serialize` parameters. The sanitizer and the normalizer work on the parsed tree.
- `getComputedStyle` is a parameter of `CheckFormatting` (`ComputedStyle`). The browser's cascade is not modelled.
- CSS shorthands, `!important` and invalid values in inline styles are not modelled. Style values are compared lower-cased, as the browser serializes them.
- `document.execCommand` and the toolbar handlers in `WysiwygEditor.tsx` that only call it: legacy browser API with no visible effect.
- `requestAnimationFrame`: the deferred caret restore is returned as a value, and `checkFormatting` is modelled as the call the frame makes.
- Live-range adjustments after a mutation, and the caret move after a wrap or a table insert. The moves after a table insert act on an emptied fragment and do nothing.
- The loops that move children one at a time (`while (firstChild)`) are modelled by their net effect.
- `clipboardData` being null, and selections outside the editor.
- `closest()` looking above the editor's own element.
- The wrapper's debug `selectionchange` listener (src/ModernEditorWrapper.tsx:39-55) only feeds the debug panel.
- Name validation in `setAttribute`, and the key order of `Object.entries`. Entries are taken in the given order.
- `prompt()` is a parameter: the URL a link or image control receives.
- The click-outside listener and the popover's rendering.
- src/types/TableStyles.ts is not part of this model. Table styles are two strings.
- Bindings.Display: binding values (`Bindings.Value`) are integers, strings, booleans, null, undefined and plain objects. Fractional numbers, NaN, arrays and functions cannot be expressed, so `${value}` showing `9.99`, `NaN` or `1,2`, and a lookup such as `{{items.0}}` into an array, are not modelled.
- The wrapper passes no configuration to the editor, so its `onChange` is undefined and nothing receives the reports. The editor's `changes` field records what it would hand to `onChange`.
- Bindings.ResolveMatchesLookup: a lookup on a value that is not an object (a string's `length` or indices, members inherited from a prototype such as `toString`, numbers that are not integers) gives undefined in the model, where JavaScript may find a value.
- Strings.Lower: case mapping covers ASCII letters only. JavaScript's `toLowerCase` maps all of Unicode and can change the length (U+0130 becomes two code units). Text lengths and caret offsets count Unicode scalar values, where JavaScript counts UTF-16 code units.

## Findings

| source | as written | input that shows it | evidently intended | confidence | as-written member | corrected member |
|---|---|---|---|---|---|---|
| src/ModernEditorWrapper.tsx:110 | `handleTable` builds the table markup and calls `editor.insert(tableHTML)`, but the editor class has no `insert` method; the call throws, nothing is inserted, and `setShowTablePopover(false)` is never reached (the link and image controls fail the same way, next row) | any table request with an editor mounted, e.g. 2 rows and 2 columns | the table replaces the selection through the editor's update path, and the popover closes | not executed | EditorWrapper.Wrapper.HandleTable | EditorWrapper.Wrapper.HandleTableInserting |
| src/ModernEditorWrapper.tsx:37 | the mount effect runs `new ModernEditor(editorRef.current, content)`, imported at line 4 from the editor module, which exports only `ModernEditorComponent` and `Template`; its editor class, `RichEditor`, is not exported, so a type-checked build rejects the import and a transpiled one leaves it undefined: the construction throws, `editorInstanceRef.current` stays null, and every handler stops at its null check | any mount of the wrapper, followed by a table request of 2 rows and 2 columns | the class-based editor is created over the content, and the handlers act on it | not executed | EditorWrapper.Wrapper.MountAsWritten | EditorWrapper.Wrapper.Mount |
| src/ModernEditorWrapper.tsx:138 | the link control, given a URL, calls `editorInstanceRef.current.insert(...)`; the editor class has no `insert` method, so the call throws and no link is inserted; the image control at line 144 does the same | a link control whose prompt returns `https://a.b`, with an editor mounted | the link (or image) markup replaces the selection through the editor's update path | not executed | EditorWrapper.Wrapper.HandleControl | EditorWrapper.Wrapper.HandleControlInserting |
