# Hidden-text toggle for a Markdown editor, modelled in Dafny

The plugin hides every span written between two `&&` delimiters. It works in two places:

- **Rendered preview.** A post-processor walks the rendered tree. It replaces each text node that holds a span by a fragment: plain text pieces, plus `<span class="htt-masked">` elements with the inner text masked. Every character that is not whitespace becomes `▓`, so word and line breaks stay visible. The delimiters are dropped. Code-like elements (`CODE`, `PRE`, `KBD`, `SAMP`) are never entered.
- **Live editor.** A view plugin scans every visible range of the document. In hidden mode each span gets a zero-width widget with the masked text and a replace decoration that hides the span. In revealed mode each span gets three marks: both delimiters dimmed, the inner text highlighted. Decorations are added to a range-set builder that insists on ascending start offsets.

A command flips the mode. When the editor modules are loaded, the editor extension is brought along.

The model is organised as follows:

- `jstext.dfy`, module `JsText`
  - Text is a sequence of UTF-16 code units, which is what a JavaScript regular expression without the `u` flag reads.
  - `\s` is the fixed set of WhiteSpace and LineTerminator code points of ECMA-262.
  - `Mask` is `maskPreservingSpaces`.
- `scanner.dfy`, module `Scanner`
  - `/&&([\s\S]+?)&&/g` is modelled as `FirstMatch`: the leftmost place where the pattern opens, then the shortest closing `&&` that leaves at least one inner character.
  - `ScanFrom` repeats `exec` from `lastIndex`. `IsScan` gives a declarative description of the result, and the two are proved to agree.
  - `GlobalRegex` is the stateful regular expression object, with `lastIndex`, `exec` and `test`.
- `splitter.dfy`, module `Splitter`
  - `replaceRangesInTextNode` is the method `SplitText`. It runs the source's `exec` loop and is proved equal to the function `Segments`.
  - The properties of `Segments`: rendering it gives the text with every `&&x&&` replaced by the mask of x, putting the spans back restores the text exactly, plain pieces are non-empty and hold no span, and masked pieces are the masks of the inner parts.
- `dom.dfy`, module `Dom`
  - The rendered tree is a value datatype, and `Process` is what the walk makes of a node.
  - Lemmas show that the walk:
    - leaves a tree unchanged exactly when the tree has nothing to do;
    - is idempotent;
    - keeps every ignored subtree verbatim and in order;
    - keeps the element structure apart from text and masked spans.
- `plugin.dfy`, module `Plugin`
  - `HiddenTextToggle` is the plugin object.
  - `Traverse` walks the live child list index by index, exactly as the source does. After a split the loop steps past the first inserted node, so the nodes inserted after it are visited too. They are proved settled, and the walk is proved to give `Process`.
  - `PostProcess` walks a preview only in hidden mode and leaves the plugin's state valid.
  - `ToggleHiddenMode` and `ReconfigureEditors` keep the editor configuration in step with the mode. This is gated by whether the editor modules loaded.
- `decorations.dfy`, module `Decorations`
  - `HttViewPlugin.BuildDecos` runs the nested loop over visible ranges and matches. Each of its `builder.add` calls must meet the `RangeSetBuilder` order. It is proved equal to `Decorations`.
  - Lemmas give the layout of each mode. They also prove that decorations are sorted, lie inside their visible range, and can be added in the order produced.

## Model

| member | source | states |
|---|---|---|
| JsText.Mask | main.js:26-28 | the mask has the length of its input, keeps every `\s` code unit in place and turns every other code unit into `▓` |
| JsText.MaskKeepsLayout | main.js:25-28 | a masked text has whitespace at exactly the positions where the original has it |
| JsText.MaskIdempotent | main.js:26-28 | masking a masked text changes nothing |
| JsText.MaskAppend | main.js:27 | the mask of a concatenation is the concatenation of the masks (the replace works code unit by code unit) |
| JsText.MaskHasNoAmpersand | main.js:27 | no masked text contains `&` |
| JsText.MaskExample | main.js:26-28 | `a b\nc` masks to `▓ ▓\n▓` |
| Scanner.NextDelim | main.js:73 | the lazy `+?` stops at the first `&&` at or after the given position; none lies before it |
| Scanner.FirstMatch | main.js:73 | a found match starts at or after the search start, has `&&` at both ends, has a non-empty inner part that is group 1 and has no earlier closing `&&`; no position before it (or none at all, when nothing is found) can open a match |
| Scanner.MatchAtUnique | main.js:73 | the pattern has at most one match starting at a given position |
| Scanner.MatchOpens | main.js:73 | a match begins at a position where the pattern opens |
| Scanner.ScanFrom | main.js:38-50 | repeated `exec` from `lastIndex` yields matches that start at or after it, each a match of the pattern, left to right, none overlapping the next |
| Scanner.ScanFromIsScan | main.js:38-50 | the repeated `exec` result is a chain of matches that misses no position where the pattern could open |
| Scanner.IsScanUnique | main.js:38-50 | there is exactly one such chain, so the declarative description determines the `exec` loop's output |
| Scanner.ChainOrdered | main.js:38-50 | any later match starts at or after any earlier one ends |
| Scanner.ChainStartsAfter | main.js:38-50 | every match of the scan starts at or after the scan's starting point |
| Scanner.NoMatchIff | main.js:73 | the scan is empty exactly when no `&&` is followed, at least three positions later, by another `&&` |
| Scanner.AdjacentSpans | main.js:38-50 | `&&a&&&&b&&` yields the two matches with inner parts `a` and `b`, the second starting where the first ends |
| Scanner.LazyClose | main.js:73 | in `x&&&&y&&` the match opens at the first `&&` and its inner part is `&&y` |
| Scanner.Unterminated | main.js:73 | a lone `&&` in text without other ampersands yields no match |
| Scanner.GlobalRegex.Exec | main.js:38 | `exec` returns the first match from `lastIndex` (none when `lastIndex` is past the end), then sets `lastIndex` to its end, or to 0 on failure |
| Scanner.GlobalRegex.Test | main.js:188 | `test` reports whether `exec` would find a match, with the same effect on `lastIndex` |
| Splitter.SplitText | main.js:31-55 | the `exec` loop builds exactly `Segments(text)` and leaves `lastIndex` at 0 |
| Splitter.AppendMatch | main.js:39-47 | one loop step appends the text before the match (only when non-empty) and a span holding the mask of group 1 |
| Splitter.SplitAdvance | main.js:38-50 | after each step, the fragment so far plus the split of the rest is the whole fragment (the loop invariant) |
| Splitter.SplitFinish | main.js:52-53 | once `exec` fails, appending the non-empty tail completes the fragment |
| Splitter.SplitRender | main.js:31-55 | the texts of the fragment, in order, are the original text with each `&&x&&` replaced by the mask of x |
| Splitter.SplitRestore | main.js:41-53 | putting each span's `&&inner&&` back in place of its masked piece restores the original text exactly |
| Splitter.SplitMaskedTexts | main.js:44-47 | the masked pieces are, in order, the masks of the matches' inner parts, one per match (delimiters dropped) |
| Splitter.PlainPiecesQuiet | main.js:41-53 | every plain piece is non-empty and is a stretch of text holding no span |
| Splitter.PiecesShorter | main.js:41-46 | no piece is longer than the text, and a masked piece is shorter by at least the four delimiter characters |
| Splitter.SplitHasMasked | main.js:44-47 | a text with a span yields at least one masked piece |
| Splitter.SplitExample | main.js:31-55 | `a&&b&&c` splits into the text `a`, a span holding `▓` and the text `c` |
| Dom.Fragment | main.js:36-55 | the fragment has one node per piece, in order: a text node for plain text, a masked span for masked text |
| Dom.ChildSize | main.js:197-198 | a child is no larger than its siblings together |
| Dom.ProcessAllAppend | main.js:197-199 | the walk treats siblings one after another, independently |
| Dom.NoAmpersandNoMatch | main.js:188 | a text without ampersands fails the `test` check |
| Dom.FragmentInert | main.js:36-53 | a fragment holds no ignored element and nothing but text and masked spans |
| Dom.FragmentQuiet | main.js:186-192 | every node of a fragment is left alone when the walk visits it again |
| Dom.MaskedIsMask | main.js:46 | every masked piece's text is the mask of some text |
| Dom.ProcessNotEmpty | main.js:55 | every node leaves at least one node in its place |
| Dom.ProcessAllLonger | main.js:197-199 | walking siblings never reduces their number |
| Dom.QuietFixed | main.js:186-199 | a tree with nothing to do is left as it is |
| Dom.FixedQuiet | main.js:186-199 | a tree the walk leaves as it is has nothing to do |
| Dom.ProcessUnchangedIff | main.js:186-199 | the walk leaves a tree unchanged exactly when no text node outside ignored subtrees holds a span |
| Dom.ProcessSettled | main.js:184-204 | everything the walk produces has nothing left to do |
| Dom.ProcessIdempotent | main.js:184-204 | walking the walk's output changes nothing |
| Dom.VerbatimKept | main.js:194-196 | the `CODE`, `PRE`, `KBD` and `SAMP` subtrees come out unchanged and in their order |
| Dom.MaskedSpanContents | main.js:196-199 | the walk's output for a masked span already in the tree keeps the element the span holds in its structure (`Skeleton`) instead of erasing it with the span |
| Dom.SkeletonKept | main.js:184-204 | apart from text and the masked span elements themselves (whose contents stay in their place), every element and other node keeps its tag, class, nesting and order |
| Dom.ProcessSmall | main.js:186-192 | only a text node can become several nodes, and none of them is larger than it |
| Plugin.HiddenTextToggle.constructor | main.js:122-131 | the plugin starts in hidden mode, editor modules unavailable, no compartment, `lastIndex` 0 |
| Plugin.HiddenTextToggle.OnLoad | main.js:164-174 | the loader's result sets the capability flag; an extension for the current mode is registered exactly when the editor modules loaded |
| Plugin.HiddenTextToggle.Traverse | main.js:185-201 | the walk of one node, over the live child list, gives `Process(node)` and leaves the pattern's `lastIndex` at 0 |
| Plugin.HiddenTextToggle.ProcessElement | main.js:184-204 | walking from the root gives `Process(root)` |
| Plugin.HiddenTextToggle.PostProcess | main.js:177-180 | the post-processor gives `Process(el)` in hidden mode and leaves `el` alone otherwise |
| Plugin.HiddenTextToggle.ReconfigureEditors | main.js:206-216 | the editor extension is switched to the current mode only when the editor modules loaded and a compartment exists; otherwise nothing changes |
| Plugin.HiddenTextToggle.ToggleHiddenMode | main.js:218-224 | the mode flips while the editor configuration still shows the current mode |
| Plugin.HiddenTextToggle.ToggleTwice | main.js:218-219 | toggling twice restores the mode and the editor configuration |
| Plugin.ChildrenSmaller | main.js:197-198 | each child is smaller than its element, so the walk's recursion ends |
| Plugin.ProcessFrom | main.js:197-199 | walking the children from index i is walking the i-th child, then the rest |
| Plugin.Revisit | main.js:197-199 | after `replaceWith` the loop moves past the first inserted node; the inserted nodes after it are already settled, so the outcome is unchanged and the work left shrinks |
| Plugin.RevisitSizes | main.js:197-199 | the children still to visit after a split are no larger than before |
| Decorations.ScanSpaced | main.js:93 | the matches of a range's text are spaced inside that text |
| Decorations.ScanStep | main.js:93-95 | the decorations of the matches from `lastIndex` on are those of the next match followed by those of the rest |
| Decorations.HiddenLayout | main.js:97-102 | hidden mode emits, per match, a zero-width widget at `mFrom` with `mask(inner)`, followed by a replace over `[mFrom, mTo)`, and nothing else |
| Decorations.RevealedLayout | main.js:104-107 | revealed mode emits, per match, marks over `[mFrom, mFrom+2)`, `[mFrom+2, mTo-2)` and `[mTo-2, mTo)` with the marker, inner and marker classes, and nothing else |
| Decorations.SortedAppend | main.js:89-110 | sorted decorations of consecutive ranges concatenate to sorted decorations |
| Decorations.RangeDecosSorted | main.js:93-108 | the decorations of one range are sorted, lie inside the matches' bounds, and only widgets are empty |
| Decorations.SpacedOrdered | main.js:93 | a later match starts after an earlier one ends |
| Decorations.DecosFromSorted | main.js:89-110 | the decorations of the ranges from the i-th on are sorted and lie between that range's start and the end of the document |
| Decorations.InsideRange | main.js:89-95 | every decoration of a visible range lies inside it, so a span crossing a range boundary is never decorated there |
| Decorations.SortedAddOrder | main.js:99-104 | sorted decorations where only widgets are empty can be added to the builder one by one |
| Decorations.DecorationsOrdered | main.js:85-113 | the decorations of a view are sorted, inside the document, and in the order the builder accepts |
| Decorations.RevealedStrict | main.js:104-107 | in revealed mode every mark is non-empty, and start offsets strictly ascend |
| Decorations.RangeMarks | main.js:104-107 | revealed mode emits only marks |
| Decorations.NoWidgets | main.js:104-107 | no decoration of a revealed view is a widget or a replace |
| Decorations.SecretExample | main.js:85-113 | for a document that is just `&&secret&&`: hidden mode gives a widget of six `▓` at 0 and a replace over [0, 10); revealed mode gives marks over [0, 2), [2, 8) and [8, 10) |
| Decorations.RangeSetBuilder.Add | main.js:100-107 | an add is accepted only in ascending start order (at equal starts, the widget before the replace) and appends the decoration; the start of the last decoration added, or -1 for an empty builder, bounds the next start |
| Decorations.HttViewPlugin.AddMatch | main.js:94-108 | one match adds exactly its decorations at absolute offsets, each meeting the builder's order |
| Decorations.HttViewPlugin.AddRange | main.js:90-109 | one visible range adds exactly the decorations of its matches and leaves `lastIndex` at 0 |
| Decorations.HttViewPlugin.BuildDecos | main.js:85-113 | the nested loop returns exactly `Decorations(view, hidden)`; it never violates the builder's order |
| Decorations.HttViewPlugin.constructor | main.js:76-79 | a new view plugin holds the decorations of its view |
| Decorations.HttViewPlugin.Update | main.js:80-84 | after an update the decorations are those of the new view; when neither the document nor the viewport changed they are not rebuilt; this rests on the editor's promise that what an update does not report as changed is unchanged (`ViewUpdate.Follows`) |

## Left out

- Module loading (`tryLoadCM`, main.js:7-23) is left out. Its result enters as the `cmLoaded` parameter of `OnLoad`.
- Host glue is left out because it is foreign calls with no logic: `console.log`, the command and ribbon registration, `Notice`, and the CSS injection (main.js:133-162, 220).
- `registerEditorExtension`, `Compartment` and `ViewPlugin.fromClass` are host calls. The compartment's current configuration is modelled as the mode it holds (`editorMode`).
- The `iterateAllLeaves` dispatch to every open editor and the forced re-render of preview panes (main.js:210-215, 225-239) are calls into the host workspace and are not modelled.
- `MaskWidget` (`toDOM`, `eq`, `ignoreEvent`, main.js:61-71) is not modelled: a widget is the masked text it carries.
- The `Decoration` options (`inclusive: false`, `side: -1`) and the internals of `RangeSetBuilder` are not modelled. Only the ordering rule `add` enforces is kept, with the widget's start side before the replace's. `builder.finish()` is the list of decorations added.
- The rendered tree is a value. In-place mutation is captured as the replacement of the node in its parent's child list (`replaceWith`, `childNodes`). Node identity and aliasing are not modelled: other references to a replaced node, and event listeners.
- Decorations.HttViewPlugin.Update: relies on the editor's promise (`ViewUpdate.Follows`, a precondition) that an update reporting neither `docChanged` nor `viewportChanged` leaves the document and the visible ranges as they were; the model does not derive it.
- The model stops at the builder's output (main.js:100-107). What the editor then shows is not modelled. In particular, the editor refuses a replace decoration from a view plugin when it crosses a line break, and a span may hold a newline.
- `replaceRangesInTextNode` takes the masker as a parameter. It is always called with `maskPreservingSpaces`, so the model fixes it.
- `node.nodeValue || ""` is not modelled: a text node always has a string value.
- A new `makeHttExtension` call creates a new regular expression, shared by that extension's view plugins. The model hands it to the view plugin as a constructor parameter.
- main.ts is an older version of the plugin and is not part of this model. types/obsidian.d.ts holds only type declarations.
- Plugin.HiddenTextToggle.ReconfigureEditors: states only the new configuration of the compartment, not that every open editor receives it, because the dispatch goes through the host workspace.
