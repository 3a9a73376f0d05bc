# SVGO core, modelled in Dafny

This project models the core of SVGO, the SVG optimiser, as of the
repository DinosaurDad/libsvgo. It covers:

- the element API that every pass uses: `isElem`, `isEmpty`, `hasAttr`,
  `attr`, `removeAttr`, `addAttr`, `eachAttr`, the class list's `remove`
  and `spliceContent`. Their behaviour is fixed by test/svg2js/_index.js
  (module `Dom`, file `dom.dfy`);
- the helpers of lib/svgo/tools.js: Data URI encoding and decoding,
  `intersectArrays`, `removeLeadingZero` and `cleanupOutData`, the compact
  printing of a row of path numbers (module `Tools`);
- the multipass driver `SVGO.prototype.optimize` of lib/svgo.js (module
  `Svgo`);
- five passes, each as its per-item or whole-document function `fn`:
  - `removeXMLNS` (module `RemoveXmlns`);
  - `moveElemsAttrsToGroup` (module `MoveElemsAttrsToGroup`);
  - `mergePaths` (module `MergePaths`);
  - `sortDefsChildren` (module `SortDefsChildren`);
  - `inlineStyles` (module `InlineStyles`).

An element is a class `Dom.Element` whose fields the passes update in place:
`attrs`, `content`, `parentNode`, the class list `classes`, the inline style
`style`, and `text`, the character data of a `<style>`. A node that is not
an element has an empty `elem`. The foreign helpers the core calls are
parameters of the operations that call them:

- `Buffer` base64 and `encodeURIComponent` / `decodeURIComponent`;
- `path2js`, `js2path` and `intersects` of plugins/_path.js;
- csstree's parser and printer, the selector filters and the specificity
  sort of lib/css-tools.js, and `querySelectorAll`;
- one optimisation pass, `_optimizeOnce`.

What is proved, in short:

- Decoding a Data URI that was encoded gives back the text.
- A row printed by `cleanupOutData` reads back as the same numbers.
- The `every` loop of `moveElemsAttrsToGroup` computes exactly the
  inheritable attributes common to all children.
- `mergePaths` keeps an order-preserving subsequence of the children, and
  each kept path draws the concatenated commands of the paths merged into it.
- `sortDefsChildren` returns a permutation in comparator order that is
  stable (children with one name keep their order), or the comparator's
  `TypeError`.
- `inlineStyles` gives every element the cascade of its matching rules
  (inline styles win at equal priority, `!important` beats normal). It
  removes exactly the applied selectors, cleans class and id values as the
  code does, and removes emptied `<style>` elements. On a tree with no
  `<defs>` inside a `<defs>`, a child leaves its parent exactly when it is
  an emptied `<style>` or a `<defs>` all of whose children are.
- The multipass driver stops at the first pass that is not strictly shorter,
  or at the pass cap.

Where the documented design and the code disagree, the model follows the
code:

- `info.multipassCount` is the number of passes run minus one
  (lib/svgo.js:40), not the number of passes.
- The class and id cleanup looks at the first component of the matched
  selector only (plugins/inlineStyles.js:187-199), not at selectors that are
  a single class or id.
- The `class` attribute is removed whenever the class list is empty after a
  matched selector (plugins/inlineStyles.js:192-194), even when the selector
  was an id or a type selector.
- At-rules emptied by the selector removal are never removed (see
  "## Findings").
- `sortDefsChildren` throws on a non-element child of `defs` that shares its
  frequency with another child (plugins/sortDefsChildren.js:32).

## Model

| member | source | states |
|---|---|---|
| Dom.Without | plugins/inlineStyles.js:189 | the token is gone, every other token of the class list stays, and nothing new appears |
| Dom.Element.constructor | test/svg2js/_index.js:86-150 | a node has its name, attributes and children, no parent, an empty class list and an empty style |
| Dom.Element.Attr | test/svg2js/_index.js:237-261 | `attr` answers the attribute exactly when `hasAttr` holds for a name (and value), and undefined without a name |
| Dom.Element.RemoveAttr | test/svg2js/_index.js:263-293 | answers true exactly when the named attribute (with the given value) was present, and then it is gone and no other attribute changes; without a name nothing happens |
| Dom.Element.AddAttr | test/svg2js/_index.js:295-334 | stores and returns the attribute exactly when name, value, prefix and local are all given; answers false and changes nothing otherwise |
| Dom.Element.EachAttr | test/svg2js/_index.js:336-352 | the callback is applied to every attribute and to nothing else; answers false exactly when there are no attributes |
| Dom.Element.RemoveClass | plugins/inlineStyles.js:189 | the class list loses the token, and a present `class` attribute shows the remaining tokens |
| Dom.Element.RemoveChildAt | plugins/inlineStyles.js:227 | `spliceContent(index, 1)` removes the child at the index, or the last child when the index is -1 |
| Dom.IndexOf | plugins/inlineStyles.js:227 | `indexOf` is the first position of the child, or -1 exactly when it is absent |
| Dom.SpliceOne | plugins/inlineStyles.js:227 | `splice(start, 1)` removes the one item at `start`, or the last item for -1 |
| Dom.DetachedSpec | plugins/inlineStyles.js:226-227 | splicing at `indexOf(child)` removes one occurrence of a present child; for an absent child it removes the last child instead |
| Tools.Encode | lib/svgo/tools.js:8-21 | base64 for no type or `base64`, percent encoding for `enc`, the raw text for `unenc`, each after the SVG Data URI prefix; any other type leaves the string unchanged |
| Tools.Line | lib/svgo/tools.js:30 | `(.*)` takes the longest prefix without a line terminator |
| Tools.CharsetEnd | lib/svgo/tools.js:30 | `[^;,]*` stops at the first `;` or `,` |
| Tools.MatchAt | lib/svgo/tools.js:30 | a match found at a position starts with the Data URI prefix there |
| Tools.ExecFindsLeftmost | lib/svgo/tools.js:31 | `exec` returns the match at the leftmost position where one starts |
| Tools.ExecNone | lib/svgo/tools.js:31 | without the prefix anywhere, `exec` finds nothing |
| Tools.Decode | lib/svgo/tools.js:29-49 | a string without a Data URI is returned unchanged; a base64 URI gives the base64 decoding of its data; data starting with `%` gives its percent decoding, or the `URIError`; data starting with `<` is returned as it is; any other matched, non-base64 URI (empty data included) returns the input unchanged; the only failure is a percent-decoding error |
| Tools.CharAt0 | lib/svgo/tools.js:41-44 | `charAt(0)` is the first character, or empty exactly for the empty string |
| Tools.EncodedMatches | lib/svgo/tools.js:30-31 | the regular expression recognises an encoded string, with the base64 flag and the payload that was written |
| Tools.DecodePlain | lib/svgo/tools.js:34 | a string without the prefix decodes to itself |
| Tools.DecodeEncodeBase64 | lib/svgo/tools.js:38-40 | decoding undoes base64 encoding, given that the base64 helpers are inverse |
| Tools.DecodeEncodePercent | lib/svgo/tools.js:41-43 | decoding undoes percent encoding whose output starts with `%`, given that the URI helpers are inverse |
| Tools.DecodeEncodeUnencoded | lib/svgo/tools.js:44-46 | decoding undoes unencoded embedding of a markup text that starts with `<` |
| Tools.IntersectArrays | lib/svgo/tools.js:51-55 | the result is no longer than `a` |
| Tools.IntersectArraysCounts | lib/svgo/tools.js:51-55 | an item is in the result exactly when it is in `a` and in `b`, as often as in `a` |
| Tools.IntersectArraysAppend | lib/svgo/tools.js:52-54 | the filter distributes over concatenation, so `a`'s order is kept |
| Tools.IntersectArraysOne | lib/svgo/tools.js:52-54 | a single item is kept exactly when `b` contains it |
| Tools.ToString | lib/svgo/tools.js:125 | a printed number is never empty |
| Tools.FractionNonZero | lib/svgo/tools.js:99 | `prev % 1 !== 0` holds exactly when the printed number has fraction digits |
| Tools.BetweenZeroAndOne | lib/svgo/tools.js:127-129 | the range tests `0 < num < 1` and `-1 < num < 0` hold exactly for the printed forms `0.d` and `-0.d` |
| Tools.RemoveLeadingZeroByValue | lib/svgo/tools.js:124-133 | the digit-based definition equals `removeLeadingZero` as written, with its tests on the value |
| Tools.RemoveLeadingZeroShape | lib/svgo/tools.js:127-131 | the zero before the point is dropped exactly for the numbers strictly between -1 and 1 other than 0; sign and digits stay |
| Tools.Piece | lib/svgo/tools.js:89-91 | every printed item is non-empty |
| Tools.PieceParses | lib/svgo/tools.js:89-91 | each printed item, with or without its leading zero, reads back as the number's value |
| Tools.DelimiterSafe | lib/svgo/tools.js:93-103 | a separator is dropped only before a minus sign, or before a point that follows a number with a fraction, so items never run together |
| Tools.PrintItem | lib/svgo/tools.js:74-106 | one step of the `forEach` prints the item with the separator the rules choose |
| Tools.CleanupOutData | lib/svgo/tools.js:68-109 | the string is the items' printed forms, each after its separator, in order |
| Tools.RowExample | lib/svgo/tools.js:60-61 | `[0, -1, .5, .5]` prints as `0-1 .5.5` |
| Tools.ExamplePieces | lib/svgo/tools.js:86-88 | `0.5` prints as `.5`, and `0` and `-1` stay as they are |
| Tools.RowTokens | lib/svgo/tools.js:73-107 | the printed row splits back into exactly the printed items (flags of arcs printed without spaces aside) |
| Tools.RowReadsBack | lib/svgo/tools.js:68-109 | the printed row reads back as the same numbers, in order |
| Svgo.Info.constructor | lib/svgo.js:23 | a fresh `info` has its path and no pass count |
| Svgo.MaxPasses | lib/svgo.js:31 | the cap is at least one pass, and more than one exactly with `multipass` |
| Svgo.Finish | lib/svgo.js:45-47 | the text is Data URI encoded exactly when a Data URI type is configured |
| Svgo.Optimize | lib/svgo.js:22-57 | a rejected configuration runs no pass; otherwise the passes run until the stop rule holds; a parse error in the last pass rejects with that error; success returns the last pass's text, encoded when asked, with `info.path` and `multipassCount` = passes - 1 |
| Svgo.StopsUnique | lib/svgo.js:41 | the stop rule fixes the number of passes |
| Svgo.SinglePass | lib/svgo.js:31 | without `multipass` exactly one pass runs |
| Svgo.ShrinkChain | lib/svgo.js:41-43 | every pass that is followed by another shortens the text by at least one character |
| Svgo.PassesBoundedBySize | lib/svgo.js:41-43 | the number of passes is bounded by the length of the first pass's output plus two |
| Svgo.StopsWhenNotShorter | lib/svgo.js:41 | the driver stops at the first pass whose output is not strictly shorter than the one before |
| Svgo.ThreePasses | lib/svgo.js:40-43 | outputs that shrink twice and then stay the same length take three passes |
| RemoveXmlns.Stripped | plugins/removeXMLNS.js:24-28 | on `svg` the `xmlns` attribute is gone and every other attribute stays; other elements are unchanged |
| RemoveXmlns.StrippedIdempotent | plugins/removeXMLNS.js:24-28 | running the pass twice equals running it once |
| RemoveXmlns.Fn | plugins/removeXMLNS.js:24-28 | the item's attributes become the stripped ones, and nothing else changes |
| MoveElemsAttrsToGroup.IntersectInheritableAttrs | plugins/moveElemsAttrsToGroup.js:95-114 | the result holds exactly the inheritable attributes that are identical in `a` and `b`, or false when there are none |
| MoveElemsAttrsToGroup.Callback | plugins/moveElemsAttrsToGroup.js:43-55 | one call of the `every` callback refuses non-elements, elements without attributes and elements with `class`, and otherwise narrows the intersection |
| MoveElemsAttrsToGroup.Intersect | plugins/moveElemsAttrsToGroup.js:42-56 | the `every` loop's result is the running intersection over all children, or false once the callback refuses |
| MoveElemsAttrsToGroup.IntersectedIsCommonToAll | plugins/moveElemsAttrsToGroup.js:42-56 | with two or more children, the loop yields exactly the inheritable attributes common to all of them, or false when a child does not qualify or nothing is common |
| MoveElemsAttrsToGroup.IntersectedStaysNone | plugins/moveElemsAttrsToGroup.js:42 | once the callback has answered false, `every` answers false |
| MoveElemsAttrsToGroup.HoistedPlain | plugins/moveElemsAttrsToGroup.js:78 | moving an attribute other than `transform` sets it on the group |
| MoveElemsAttrsToGroup.HoistedTransform | plugins/moveElemsAttrsToGroup.js:67-76 | a moved `transform` is appended after a space to the group's own, or added |
| MoveElemsAttrsToGroup.MoveName | plugins/moveElemsAttrsToGroup.js:64-80 | one name of the intersection leaves the child and is set on the group, unless it is a `transform` that has to stay |
| MoveElemsAttrsToGroup.MoveFromChild | plugins/moveElemsAttrsToGroup.js:63-81 | the child loses every moved attribute, and the group gains them, with `transform` appended once |
| MoveElemsAttrsToGroup.MoveAll | plugins/moveElemsAttrsToGroup.js:61-83 | every child loses the moved attributes; the group has them, with the intersected `transform` appended once however many children there are |
| MoveElemsAttrsToGroup.Fn | plugins/moveElemsAttrsToGroup.js:37-85 | for a `g` with two or more children whose attributes intersect, the common inheritable attributes move to the group (`transform` stays when all children are paths or the group clips or masks); otherwise nothing changes |
| MergePaths.MergedOrder | plugins/mergePaths.js:31-64 | the kept children are an order-preserving subsequence of the old ones, starting with the first |
| MergePaths.MergedViews | plugins/mergePaths.js:55-58 | a kept child differs from its original at most in `d` |
| MergePaths.MergedKeepsOthers | plugins/mergePaths.js:32-38 | every child that is not a childless path with `d` is kept |
| MergePaths.CanMergeSameAttributes | plugins/mergePaths.js:44-51 | two merged paths have the same attribute names and equal values outside `d` |
| MergePaths.MergedNoPaths | plugins/mergePaths.js:31-64 | without plain paths the filter keeps every child unchanged |
| MergePaths.MergedRuns | plugins/mergePaths.js:52-56 | each kept path draws the concatenated commands of the run of paths merged into it, given that parsing undoes printing |
| MergePaths.MergeInto | plugins/mergePaths.js:40-58 | the current path is merged exactly when the attributes match and the paths do not intersect (or `force`), and then the previous path's `d` holds both paths' commands |
| MergePaths.TryMerge | plugins/mergePaths.js:40-58 | the merge decision and its effect, seen through the children's views |
| MergePaths.PlainPaths | plugins/mergePaths.js:32-38 | the guard holds exactly when both the previous and the current child are childless paths with `d` |
| MergePaths.Visit | plugins/mergePaths.js:31-64 | one call of the filter callback keeps the children and the previous item as the reference filter does |
| MergePaths.Filter | plugins/mergePaths.js:31-64 | the filter keeps exactly the children the reference definition keeps, with the merged `d` values; dropped children are untouched |
| MergePaths.Prune | plugins/mergePaths.js:28-64 | the new children mirror the reference definition of the merge |
| MergePaths.Fn | plugins/mergePaths.js:25-65 | non-elements and empty elements are left alone; otherwise the children become the reference definition's merge of them |
| SortDefsChildren.Key | plugins/sortDefsChildren.js:19-24 | the frequency key is the element name, or "undefined" for a non-element |
| SortDefsChildren.CountsOccurrences | plugins/sortDefsChildren.js:19-26 | the frequency map holds exactly the keys that occur, each with its number of occurrences |
| SortDefsChildren.CountsSnoc | plugins/sortDefsChildren.js:20-24 | a key seen again gains one; a new key enters with 1 |
| SortDefsChildren.Tally | plugins/sortDefsChildren.js:19-26 | the `reduce` builds the frequency map of the keys |
| SortDefsChildren.Frequencies | plugins/sortDefsChildren.js:19-26 | the frequency map of the children's keys |
| SortDefsChildren.StrGreaterIrreflexive | plugins/sortDefsChildren.js:36 | no name is greater than itself |
| SortDefsChildren.StrGreaterTotal | plugins/sortDefsChildren.js:36 | of two different names one is greater |
| SortDefsChildren.StrGreaterTransitive | plugins/sortDefsChildren.js:36 | string comparison is transitive |
| SortDefsChildren.CompareMeansGoesBefore | plugins/sortDefsChildren.js:27-37 | the comparator is non-positive exactly when the first key goes before the second (higher frequency, then longer, then greater name), and zero exactly for equal keys |
| SortDefsChildren.GoesBeforeTotal | plugins/sortDefsChildren.js:27-37 | the order is total and antisymmetric |
| SortDefsChildren.GoesBeforeTransitive | plugins/sortDefsChildren.js:27-37 | the order is transitive |
| SortDefsChildren.Insert | plugins/sortDefsChildren.js:27 | insertion adds exactly the one child |
| SortDefsChildren.SortByComparator | plugins/sortDefsChildren.js:27 | the sort is a permutation of the children |
| SortDefsChildren.InsertSorted | plugins/sortDefsChildren.js:27-37 | inserting into sorted children keeps them sorted |
| SortDefsChildren.SortSorted | plugins/sortDefsChildren.js:27-37 | the sorted children are in comparator order |
| SortDefsChildren.InsertOnly | plugins/sortDefsChildren.js:27-37 | inserting into sorted children puts the new child after every child with its name and leaves the children of other names in order |
| SortDefsChildren.SortStable | plugins/sortDefsChildren.js:27-37 | the sort is stable: for every name, the children with that name, which the comparator answers 0 for, keep their order |
| SortDefsChildren.SortedOrder | plugins/sortDefsChildren.js:27-37 | in the result more frequent names come first, then longer names, then greater names, and children with the same name are contiguous |
| SortDefsChildren.NoThrowOneNonElement | plugins/sortDefsChildren.js:20-32 | a sort that does not throw has at most one non-element child |
| SortDefsChildren.ElementsNeverThrow | plugins/sortDefsChildren.js:32 | children that are all elements never make the comparator throw |
| SortDefsChildren.CommentBesideGradient | plugins/sortDefsChildren.js:28-32 | a comment beside a single gradient makes the comparator throw |
| SortDefsChildren.Fn | plugins/sortDefsChildren.js:16-42 | `defs` children are sorted by the comparator (a permutation in comparator order, stable by `SortStable`) and the answer is true, or the comparator's TypeError leaves them as they were; other items are untouched |
| InlineStyles.MergeOne | plugins/inlineStyles.js:148-160 | an existing property whose priority is at least the declaration's stays; otherwise the declaration is set; no other property changes |
| InlineStyles.MergeIsWinner | plugins/inlineStyles.js:148-161 | after merging a list of declarations, each property holds an important inline value; else the first important declaration; else its normal inline value; else the first normal declaration |
| InlineStyles.MergeRaises | plugins/inlineStyles.js:155-157 | merging never loses a property nor lowers its priority |
| InlineStyles.MergeCovers | plugins/inlineStyles.js:155-159 | after merging, every declared property is present with at least the declaration's priority |
| InlineStyles.MergeCovered | plugins/inlineStyles.js:155-158 | declarations already covered change nothing |
| InlineStyles.MergeIdempotent | plugins/inlineStyles.js:148-161 | merging the same declarations twice equals merging them once |
| InlineStyles.MergeUntouched | plugins/inlineStyles.js:148-161 | undeclared properties keep their values |
| InlineStyles.MergeAppend | plugins/inlineStyles.js:148-161 | merging two lists in turn equals merging their concatenation |
| InlineStyles.PrecedenceExamples | plugins/inlineStyles.js:150-153 | `!important` beats a normal inline value, and an important inline value beats a normal one |
| InlineStyles.DropKey | plugins/inlineStyles.js:166 | removing a selector from a list deletes exactly that selector |
| InlineStyles.RemoveKeyKeys | plugins/inlineStyles.js:166 | removing a selector from a sheet deletes exactly that selector, at any depth |
| InlineStyles.CleanRules | plugins/inlineStyles.js:216-220 | the intended cleanup keeps exactly the rules that still have selectors, in order |
| InlineStyles.CleanAsWrittenRules | plugins/inlineStyles.js:205-222 | the cleanup as written keeps exactly the rules that still have selectors, in order |
| InlineStyles.CleanTidy | plugins/inlineStyles.js:205-222 | the intended cleanup leaves no rule without selectors and no empty at-rule |
| InlineStyles.CleanTidyUnchanged | plugins/inlineStyles.js:205-222 | the intended cleanup does not change a tidy sheet |
| InlineStyles.CleanIdempotent | plugins/inlineStyles.js:205-222 | the intended cleanup is idempotent |
| InlineStyles.EmptyAtruleKept | plugins/inlineStyles.js:205-214 | an `@media` whose only rule lost its selectors survives the cleanup as written, while the intended cleanup deletes it |
| InlineStyles.Collected | plugins/inlineStyles.js:64-90 | the sheets collected are no more than the `<style>` elements |
| InlineStyles.CollectedSource | plugins/inlineStyles.js:64-90 | each collected sheet comes from a non-empty, parsed `<style>` outside `foreignObject` |
| InlineStyles.CollectedAll | plugins/inlineStyles.js:64-90 | every such `<style>` is collected |
| InlineStyles.FlattenRules | plugins/inlineStyles.js:89 | each selector record belongs to a rule of its sheet and carries that rule's declarations |
| InlineStyles.FlattenAllNamesSelectors | plugins/inlineStyles.js:89 | every record names a selector of an existing sheet |
| InlineStyles.Reverse | plugins/inlineStyles.js:102 | the sorted records are taken in reverse order |
| InlineStyles.Selected | plugins/inlineStyles.js:112-125 | a query error other than an unmatched selector ends the pass; an unmatched selector or no match records nothing |
| InlineStyles.MatchAll | plugins/inlineStyles.js:107-128 | the matches of all records in order, or the first error that is not an unmatched selector |
| InlineStyles.MatchAllPrefixFails | plugins/inlineStyles.js:119 | the first failing query decides the error |
| InlineStyles.CascadeIsMerge | plugins/inlineStyles.js:131-162 | each element's style is its inline style merged with the declarations of its eligible records, in order |
| InlineStyles.CascadeSkipsShared | plugins/inlineStyles.js:136-139 | with `onlyMatchedOnce`, records that select several elements change no style |
| InlineStyles.OnlyOnce | plugins/inlineStyles.js:136-139 | records with more than one match are dropped, the rest kept |
| InlineStyles.CleanMarks | plugins/inlineStyles.js:185-200 | a first class component leaves the class list; an empty class list removes `class`; a first id component removes a matching `id`; nothing else changes |
| InlineStyles.WithoutTwice | plugins/inlineStyles.js:189 | removing a class token twice equals removing it once |
| InlineStyles.CleanMarksIdempotent | plugins/inlineStyles.js:185-200 | the class and id cleanup is idempotent |
| InlineStyles.ClassCleanupExamples | plugins/inlineStyles.js:186-194 | `.a` on `class="a b"` leaves `class="b"`, and on `class="a"` removes the attribute |
| InlineStyles.CleanedUnselected | plugins/inlineStyles.js:175-201 | an element no eligible record selected keeps its classes and attributes |
| InlineStyles.RemoveFrom | plugins/inlineStyles.js:166 | removing a record's selector changes only its own sheet |
| InlineStyles.Removed | plugins/inlineStyles.js:164-167 | the selector removal keeps every sheet's element |
| InlineStyles.RemovedKeys | plugins/inlineStyles.js:164-167 | each sheet keeps exactly its selectors less those of the eligible records that matched |
| InlineStyles.RemovedNothing | plugins/inlineStyles.js:164-167 | with `removeMatchedSelectors` off no selector is removed |
| InlineStyles.Collect | plugins/inlineStyles.js:64-90 | the loop collects the usable sheets and their selector records |
| InlineStyles.Match | plugins/inlineStyles.js:107-128 | the matching loop returns the matches of all records, or the error |
| InlineStyles.MergeDecls | plugins/inlineStyles.js:148-161 | one element's style becomes its style merged with the rule's declarations |
| InlineStyles.ApplyRecord | plugins/inlineStyles.js:142-162 | every selected element's style is merged with the record's declarations |
| InlineStyles.Apply | plugins/inlineStyles.js:131-168 | every touched element ends with its cascade, and the sheets lose the applied selectors |
| InlineStyles.CleanElement | plugins/inlineStyles.js:186-199 | one element's class list and attributes are cleaned for one selector |
| InlineStyles.CleanRecord | plugins/inlineStyles.js:185-200 | every element a record selected is cleaned for its selector |
| InlineStyles.CleanClasses | plugins/inlineStyles.js:175-201 | every touched element's class list and attributes end as the record-by-record cleanup says |
| InlineStyles.Unlink | plugins/inlineStyles.js:227 | the parent loses one occurrence of the child, no other node changes, and the children map gains the same one-entry update |
| InlineStyles.DetachWithDefs | plugins/inlineStyles.js:227-234 | the `<style>` leaves its `defs` parent, which is left empty and so leaves its own parent; no other node's children change, and the result is one `UnlinkStep` |
| InlineStyles.DetachFromParent | plugins/inlineStyles.js:226-227 | an emptied `<style>` leaves its parent, and no other node's children change |
| InlineStyles.DetachEmptyingDefs | plugins/inlineStyles.js:226-234 | a `<style>` that was a `defs`'s only child leaves it, the `defs` leaves its parent, and every node's children are those of one `UnlinkStep` |
| InlineStyles.Detach | plugins/inlineStyles.js:226-236 | every node's children become those of one `UnlinkStep`: the `<style>` leaves its parent, and a `defs` parent that this empties leaves its own; nothing else leaves |
| InlineStyles.UnlinkStepRemoves | plugins/inlineStyles.js:226-227 | one removal step takes out an element that occurred at most once among its parent's children |
| InlineStyles.UnlinkedShrinks | plugins/inlineStyles.js:224-236 | the sheet cleanup only takes children away |
| InlineStyles.UnlinkedGone | plugins/inlineStyles.js:224-227 | an emptied `<style>` that occurred at most once among its parent's children is no longer among them |
| InlineStyles.UnlinkedKeeps | plugins/inlineStyles.js:203-236 | on a tree with no `defs` inside a `defs`, every element's children after the cleanup are its old children without the emptied `<style>`s and the `defs` whose children all were emptied, in order |
| InlineStyles.CleanupRemovesExactly | plugins/inlineStyles.js:203-236 | on such a tree, a child leaves its parent exactly when it is an emptied `<style>` or a `defs` whose children all are emptied `<style>`s |
| InlineStyles.SheetsCleanedExactly | plugins/inlineStyles.js:203-241 | after the pass's sheet cleanup, on such a document, a child has left its parent exactly when it is an emptied `<style>` or a `defs` whose children all are |
| InlineStyles.CleanupSheet | plugins/inlineStyles.js:204-240 | a sheet that keeps something after the cleanup as written is printed back; an emptied one is detached, with every node's children those of one `UnlinkStep`, and with nothing detached otherwise |
| InlineStyles.CleanupLoop | plugins/inlineStyles.js:204-241 | every sheet is printed back or detached as the cleanup decides; no other text, attribute, class list, style or parent changes; every node's children end as the fold `Unlinked` of the removal steps over the sheets |
| InlineStyles.CleanupSheets | plugins/inlineStyles.js:203-241 | the cleanup of all sheets: texts printed, other texts unchanged, emptied `<style>`s gone, and every node's children exactly those of the fold `Unlinked` |
| InlineStyles.Prepare | plugins/inlineStyles.js:53-128 | the collected sheets, the records sorted and reversed, and their matches |
| InlineStyles.Transform | plugins/inlineStyles.js:131-241 | styles inlined; without `removeMatchedSelectors` nothing else changes; with it, classes and ids cleaned, sheets printed or removed, and every node's children those of the fold `Unlinked` from the children before the pass |
| InlineStyles.RemoveMatched | plugins/inlineStyles.js:170-241 | after the merge: classes and ids cleaned record by record, sheets printed back, other texts unchanged, and every node's children those of the fold `Unlinked` from the children before the pass |
| InlineStyles.Fn | plugins/inlineStyles.js:52-244 | a query error ends the pass before the document changes; otherwise every element gets its cascade, and with `removeMatchedSelectors` the classes and ids are cleaned, the sheets printed back, and every node's children become those of the fold `Unlinked` (characterised by `SheetsCleanedExactly`) |

## Left out

- The parser and serialiser (lib/svgo/svg2js.js, lib/svgo/js2svg.js) and the plugin engine (lib/svgo/plugins.js) are not part of this model. Each pass is modelled as the function it hands the engine, for one item or one document.
- `_optimizeOnce` is a parameter of `Svgo.Optimize`, and so are `Buffer` base64 and `encodeURIComponent`. The promise becomes the method's result.
- lib/css-tools.js and csstree are not part of this model. `flattenToSelectors` is modelled as `InlineStyles.FlattenRules` and `InlineStyles.FlattenAll`, over a sheet model of rules and at-rules. Parsing, `filterByMqs`, `filterByPseudos`, `cleanPseudos` and `sortSelectors` (together the parameter `arrange`), `csstree.generate` and `querySelectorAll` are parameters of `InlineStyles.Fn`. A stylesheet that fails to parse is a `StyleSource` without a parsed sheet.
- plugins/_path.js (`path2js`, `js2path`, `intersects`) is not part of this model. Those helpers are the parameters in `MergePaths.PathOps`.
- `deepClone`/`clone()` (test/svg2js/_index.js:153-169) is not modelled. No pass in the core uses it.
- The `isElem`, `isEmpty` and `hasAttr` predicates are defined, not specified: they are the reference that the other contracts use.
- InlineStyles.Fn: a `null` from `querySelectorAll('style')` is taken as no `<style>` elements. The early return then leaves the document exactly as the loops over nothing would.
- InlineStyles.Fn: `cleanPseudos` edits the selector nodes of the sheets in place (plugins/inlineStyles.js:99), so a selector whose pseudo-class was let through but which matched nothing keeps its rule and is printed back without that pseudo-class (plugins/inlineStyles.js:240). `arrange` returns records and cannot change the sheets, so the model prints such a selector as it was parsed.
- InlineStyles.UnlinkedKeeps: the exact characterisation of what the sheet cleanup takes out (also `CleanupRemovesExactly` and `SheetsCleanedExactly`) assumes a tree, with each child once among its parent's children, and no `defs` inside a `defs`. With nested `defs` the outcome depends on the order of the sheets; `CleanupLoop` and `InlineStyles.Fn` still state it for any document as the fold `Unlinked`.
- InlineStyles.Fn: the selector list items are told apart by a key, not by object identity. Every `<style>` must have a parent in the document, and a grandparent when that parent is a `defs`, as in any parsed document. The removal of an emptied `<style>` is proved for one that occurs once among its parent's children.
- MergePaths.MergeInto: the `pathJS` cache that `path2js` keeps on an element is not modelled. The merged commands are printed into `d`, and a later merge re-parses `d`. This equals the cached commands only when parsing undoes printing, which `MergePaths.MergedRuns` assumes.
- MergePaths.Commands: re-parses `d` instead of reading the cache, so it equals the source only under the same round-trip assumption.
- MergePaths.Fn: assumes no element object occurs twice among the children (`Distinct`), as in any parsed document.
- Dom.Element: the class list and the inline style are not tied to the `class` and `style` attributes. The constructor starts both empty, whatever the attributes say.
- Dom.Element.RemoveClass: rewrites a present `class` attribute from the modelled class list, which does not have to reflect the attribute's tokens.
- InlineStyles.MergeDecls: updates the inline style only. The `style` attribute that CSSStyleDeclaration keeps in step with it is not rewritten.
- MoveElemsAttrsToGroup.Fn: assumes every attribute is stored under its own name (`WellKeyed`), as the parser and `addAttr` store them. Aliasing between `intersection` and the first child's attribute object cannot arise with two or more children and is not modelled.
- Tools.ToString: numbers are decimals printed without an exponent. JavaScript's exponent form (below 1e-6 or from 1e21 on) and floating-point rounding are not modelled.
- Tools.RowReadsBack: proved only when arc flags are not printed without spaces (`noSpaceAfterFlags` on an `A`/`a` command). There the packed flags, such as `11`, re-read as one number.
- SortDefsChildren.Compare: names are compared character by character and their lengths counted in characters. JavaScript compares and counts UTF-16 code units (plugins/sortDefsChildren.js:32-36). The two agree on names within the Basic Multilingual Plane, and may differ for names with characters outside it.
- Svgo.Optimize: lengths are counted in characters of the model's strings, not in JavaScript's UTF-16 code units. The two differ for characters outside the Basic Multilingual Plane.
- SortDefsChildren.Fn: when the comparator throws, the children are left as they were. The ECMAScript specification of `Array.prototype.sort` sorts a copy and writes it back. Whether a sort throws is characterised by `Throws`: some non-element child shares its frequency with another child.
- Tools.Decode: `Buffer` base64 decoding and `decodeURIComponent` are parameters. The `URIError` that `decodeURIComponent` throws is a `Failure`.

## Findings

| source | as written | input that shows it | evidently intended | confidence | as-written member | corrected member |
|---|---|---|---|---|---|---|
| plugins/inlineStyles.js:205-222 | the walk visits `Rule` nodes only, so the branch that removes at-rules left without rules never runs; an emptied `@media` stays, and its `<style>` is printed back as `@media screen{}` | `<style>@media screen{.a{fill:red}}</style><rect class="a"/>`, with the default `useMqs` of `['', 'screen']` and `removeMatchedSelectors` on | emptied at-rules are removed bottom-up, and a `<style>` left with nothing is removed | not executed | InlineStyles.EmptyAtruleKept | InlineStyles.CleanIdempotent |

`InlineStyles.CleanAsWritten` is the cleanup as written, and the pass model
(`InlineStyles.CleanupSheet` and everything after it) uses it.
`InlineStyles.Clean` is the intended cleanup. `InlineStyles.CleanTidy`,
`InlineStyles.CleanRules`, `InlineStyles.CleanTidyUnchanged` and
`InlineStyles.CleanIdempotent` prove its properties.
`InlineStyles.EmptyAtruleKept` shows where the two differ.
