# Highlight transform, streaming reveal and folder tree of the markdown demos

This project models, in Dafny, the deterministic logic of a set of React
markdown demos:

- **`remarkHighlight`**, the remark plugin of the markdown editor (current
  and backup copies). It rewrites every `text` node whose value contains
  `??inner??` into the text before each match, an `html` node holding a
  `<span class="custom-highlight">` with the captured text, and the trailing
  text. The pieces are spliced into the parent's `children` at the node's
  index. The current copy also puts a `data-popover` hover label on the
  span. The backup copy does not.
  Modules: `HighlightMatch` (the regular expression `/\?\?([^?]+)\?\?/g` as
  `matchAll` scans it), `HighlightSpan` (the emitted span text, with the
  variant `Current | Backup`), and `RemarkHighlight` (the push loop, the
  splice and the tree walk).
- **The bold toolbar command** of the editor (`BoldCommand`). It wraps the
  selection in `**`, or inserts `**Bold Text**`.
- **The streaming reveal** shared by `DisplayMD` and `DisplayMDNode`
  (`Streaming`). Each stream-interval callback is the method
  `StreamingView.Tick`, and each cursor-interval callback is
  `StreamingView.CursorTick`. A run is any sequence of these callbacks.
  `DisplayMD` adds the prop defaults (speed 5, interval 30 ms), the
  line-range guard of `scrollToLine` and the fallback of the line-number
  input. `DisplayMDNode` adds the fixed speed and interval and the header
  title.
- **The folder tree view** (`FolderTree`). It covers root and child item
  construction (path and level), the indentation, the `isExpanded` flag of
  each `TreeNodeItem` with its two handlers, and the click callback.

The tree rewrite is modelled as an immutable rebuild of each child list.
`RemarkHighlight.VisitChildren` splices each child's replacement into the
list as the source does, but after a split it moves its index past the
inserted pieces. The source's `forEach` does not, so the properties proved
of the rebuild (`RemarkHighlight.Run`, `RemarkHighlight.TransformIdempotent`)
do not hold for the source as written; see "Findings", where
`RemarkHighlight.VisitAsWritten` models the source's loop.

Timing of the reveal, as the code has it:

- The reveal finishes on the stream tick after the index reaches the
  length, so at tick `ceil(length / speed) + 1`.
- Empty content takes one tick to finish. It starts with streaming on and
  the cursor shown.
- The rebuild is idempotent (`RemarkHighlight.TransformIdempotent`).

## Model

| member | source | states |
|---|---|---|
| `HighlightMatch.MatchAt` | src/MarkdownEditor.tsx:36 | the regex matches at `i` exactly when `IsMatch` holds: `??`, then a non-empty run of non-`?` characters, then `??`; `None` means no match starts at `i` |
| `HighlightMatch.MatchUnique` | src/MarkdownEditor.tsx:36 | at most one match can start at a given position, so the scan needs no backtracking |
| `HighlightMatch.MatchesFrom` | src/MarkdownEditor.tsx:37 | scanning from a position gives real matches, the first at or after that position and each at or after the end of the previous one |
| `HighlightMatch.AllMatches` | src/MarkdownEditor.tsx:37 | `matchAll` over the whole text gives real, in-order, non-overlapping matches from position 0 |
| `HighlightMatch.Capture` | src/MarkdownEditor.tsx:59 | `match[1]` is non-empty, holds no `?`, and the matched text is `"??" + match[1] + "??"` |
| `HighlightMatch.AllMatchesSpec` | src/MarkdownEditor.tsx:37 | `matchAll` gives the one sequence of in-order, non-overlapping matches that covers every position where a match could start (leftmost scan) |
| `HighlightMatch.NoMatchesIff` | src/MarkdownEditor.tsx:39 | `matches.length == 0` exactly when no position of the text starts a match |
| `HighlightMatch.AllMatchesOrdered` | src/MarkdownEditor.tsx:43-66 | every match is real, and each starts at or after the end of the previous one, so `lastIndex` only moves forward |
| `HighlightMatch.DelimiterOnlyTextHasNoMatch` | src/MarkdownEditor.tsx:36-39 | `"??"`, `"????"` and `"?"` have no match |
| `HighlightSpan.PopoverLabel` | src/MarkdownEditor.tsx:59 | the hover label is `This is highlighted text: "` followed by the captured text and a closing `"` |
| `HighlightSpan.SpanStructure` | src/backup/MarkdownEditor.tsx:35-38 | the span is a `custom-highlight` span with the capture as its body; it has no `data-popover` attribute exactly in the backup copy, and in the current copy its second attribute is `data-popover` with the label |
| `HighlightSpan.SpanShape` | src/MarkdownEditor.tsx:62 | the span's length is fixed text plus one copy of the capture (backup) or two (current), and the body sits right after the fixed lead |
| `HighlightSpan.SpanRoundTrip` | src/MarkdownEditor.tsx:60-63 | reading the capture back out of an emitted span gives the captured text |
| `HighlightSpan.SpanInjective` | src/backup/MarkdownEditor.tsx:37 | different captures give different spans |
| `RemarkHighlight.SplitSpec` | src/MarkdownEditor.tsx:39-77 | no replacement exactly when there is no match; otherwise restoring each span to `??inner??` gives back the value, no text piece is empty, no two text pieces are adjacent, the spans carry the captures in order, and no text piece holds a match |
| `RemarkHighlight.Split` | src/MarkdownEditor.tsx:39-77 | the replacement is empty exactly when there is no match, and it has at least one piece per match and at most one text piece more than twice that |
| `RemarkHighlight.Pieces` | src/MarkdownEditor.tsx:40-77 | from `lastIndex` on, each match adds its span and at most one before-text, and the trailing text adds at most one piece |
| `RemarkHighlight.PiecesRestore` | src/backup/MarkdownEditor.tsx:19-52 | the pieces pushed from `lastIndex` on restore to the text from `lastIndex` on: no character lost or duplicated |
| `RemarkHighlight.PiecesShape` | src/MarkdownEditor.tsx:48-56 | before-text is pushed only when non-empty, spans and text alternate, and every piece is a leaf |
| `RemarkHighlight.PiecesCaptures` | src/MarkdownEditor.tsx:58-63 | the html pieces are, in order, the spans of the captures of the matches |
| `RemarkHighlight.PiecesClean` | src/backup/MarkdownEditor.tsx:23-32 | every text piece is a gap between matches and holds no match of its own |
| `RemarkHighlight.HighlightText` | src/MarkdownEditor.tsx:34-39 | the scan of one text value: empty exactly when there is no match, otherwise it restores to the value and is well shaped |
| `RemarkHighlight.PushPieces` | src/backup/MarkdownEditor.tsx:15-52 | the `forEach` push loop with `lastIndex`, then the trailing text, builds exactly the pieces of the match sequence |
| `RemarkHighlight.PushMatch` | src/MarkdownEditor.tsx:43-66 | one turn pushes the text between `lastIndex` and the match (when non-empty), then the span of `match[1]` |
| `RemarkHighlight.Splice` | src/MarkdownEditor.tsx:81 | `splice(index, 1, ...newNodes)` keeps the children before `index`, puts the new nodes at `index` and shifts the rest after them |
| `RemarkHighlight.Expand` | src/MarkdownEditor.tsx:33-91 | a visited child always gives at least one node, and a child that is not text stays one node of the same type and value |
| `RemarkHighlight.TransformChildren` | src/MarkdownEditor.tsx:86-91 | the rebuilt child list is never shorter than the original |
| `RemarkHighlight.TransformTree` | src/MarkdownEditor.tsx:94-95 | the rebuilt root keeps its type and value and has no fewer children |
| `RemarkHighlight.VisitChildren` | src/MarkdownEditor.tsx:86-91 | visiting a child list by splicing each replacement at the running index yields the rebuilt child list |
| `RemarkHighlight.VisitChild` | src/backup/MarkdownEditor.tsx:9-66 | `visit` of one child: the pieces of a text node with a match, otherwise the node with its own children visited |
| `RemarkHighlight.Run` | src/MarkdownEditor.tsx:94-95 | the rebuild, visiting from the root, keeps the root's type and value, loses no document text, and leaves no text node below the root with a match; the source's loop as written does not (see Findings) |
| `RemarkHighlight.RootTextKept` | src/MarkdownEditor.tsx:80-82 | a root text node has no parent, so it is never replaced, even when it holds a match |
| `RemarkHighlight.ExpandKeepsNode` | src/MarkdownEditor.tsx:34 | a text node with no match, or a node that is not text, is kept; only its children are visited |
| `RemarkHighlight.TransformChildrenIdentity` | src/backup/MarkdownEditor.tsx:13-15 | on a list with no match anywhere below it, the visit changes nothing |
| `RemarkHighlight.TransformChildrenClean` | src/backup/MarkdownEditor.tsx:62-66 | the visit recurses into all children: afterwards no text node anywhere in the list holds a match |
| `RemarkHighlight.TransformPreservesText` | src/MarkdownEditor.tsx:43-82 | over the whole tree, the document text (with each span read as `??inner??`) is unchanged |
| `RemarkHighlight.TransformIdempotent` | src/MarkdownEditor.tsx:31-96 | running the rebuild on its own output changes nothing; the source's loop as written is not idempotent (see Findings) |
| `RemarkHighlight.ForEachSkipsLastSibling` | src/MarkdownEditor.tsx:81-90 | for the children `"x ??a??"`, `"??b??"` the loop as written leaves `"??b??"` unvisited with its match, while the rebuild highlights it |
| `RemarkHighlight.ForEachVisit` | src/MarkdownEditor.tsx:87-91 | the `forEach` as written: with no turns left the remaining list is unchanged, and the list never shrinks |
| `RemarkHighlight.ExpandAsWritten` | src/MarkdownEditor.tsx:33-91 | `visit` of one child as written: a text child with a match gives the same pieces as the rebuild, a child that is not text stays one node of the same type and value |
| `RemarkHighlight.VisitAsWritten` | src/MarkdownEditor.tsx:87-91 | the source's child loop never shortens the list |
| `BoldCommand.BoldBody` | src/MarkdownEditor.tsx:23 | `selectedText \|\| "Bold Text"`: a non-empty selection is kept, and a missing or empty one gives `Bold Text` |
| `BoldCommand.BoldReplacement` | src/MarkdownEditor.tsx:21-25 | the text handed to `replaceSelection` is `**`, the body, `**` |
| `BoldCommand.BoldRoundTrip` | src/MarkdownEditor.tsx:24 | unwrapping the inserted text gives back the selection or the placeholder, and it is never the bare `****` |
| `BoldCommand.BoldSurjective` | src/MarkdownEditor.tsx:22-23 | every `**x**` with non-empty `x` is what the command inserts for selection `x` |
| `Streaming.JsPrefix` | src/DisplayMD.tsx:37 | `content.slice(0, end)` is a prefix of the content, of length `end` when in range, the whole content past the end, and counted from the back for a negative end |
| `Streaming.Start` | src/DisplayMD.tsx:26-31 | the effect resets the view to nothing shown, streaming, cursor on, index 0, interval set |
| `Streaming.TickStep` | src/DisplayMD.tsx:34-46 | the stream callback keeps content and speed and the session invariant, never restarts streaming, does nothing once cleared, and at or past the end shows everything and stops |
| `Streaming.CursorStep` | src/DisplayMD.tsx:54-59 | the cursor callback changes only the cursor, flips it exactly while streaming, and keeps the invariant |
| `Streaming.Caret` | src/DisplayMD.tsx:225 | the caret is shown only while streaming; under the invariant exactly when the cursor is on, and then next to the prefix up to the index |
| `Streaming.StartInv` | src/DisplayMD.tsx:27-31 | a fresh session shows nothing, streams, shows the cursor, has index 0, and satisfies the session invariant |
| `Streaming.StepInv` | src/DisplayMD.tsx:34-46 | both callbacks keep the invariant: the interval is set exactly while streaming, the shown text is the prefix up to the index while streaming, and it is the whole content with the cursor hidden afterwards |
| `Streaming.DisplayedIsPrefix` | src/DisplayMD.tsx:37-41 | what is shown is always a prefix of the content |
| `Streaming.StepGrows` | src/DisplayMD.tsx:35-39 | with a positive speed each callback keeps what was shown as a prefix of what is shown next |
| `Streaming.RunPhases` | src/DisplayMD.tsx:34-46 | after `k` stream ticks the index is `k * speed` and the prefix is shown, up to `ceil(length / speed)` ticks; after that the session has finished |
| `Streaming.FinishesAfter` | src/DisplayMD.tsx:40-45 | a session finishes exactly after `ceil(length / speed) + 1` stream ticks (one tick for empty content), and then shows the whole content with no caret |
| `Streaming.RunGrows` | src/DisplayMDNode.tsx:119-124 | along any run, what is shown never shrinks and stays a prefix of the content |
| `Streaming.FinishedIsTerminal` | src/DisplayMDNode.tsx:122-127 | once the interval is cleared, no later callback changes anything and the caret stays hidden |
| `Streaming.NeverFinishes` | src/DisplayMD.tsx:35-39 | with a speed of zero or less, non-empty content never finishes streaming |
| `Streaming.CursorBlinks` | src/DisplayMD.tsx:55-59 | the cursor flips exactly while streaming, and nothing else changes |
| `Streaming.StreamingView.constructor` | src/DisplayMD.tsx:19-21 | mounting starts a fresh session with the given content, speed and interval |
| `Streaming.StreamingView.Restart` | src/DisplayMD.tsx:26-51 | a change of content, speed or interval clears the old interval and starts a fresh session |
| `Streaming.StreamingView.Tick` | src/DisplayMDNode.tsx:116-128 | the stream callback: reveal `slice(0, index + speed)` and advance while `index < length`, otherwise show all, stop streaming, hide the cursor and clear the interval; streaming never restarts |
| `Streaming.StreamingView.CursorTick` | src/DisplayMDNode.tsx:137-141 | the cursor callback flips the cursor only while streaming |
| `Streaming.StreamingView.CaretVisible` | src/DisplayMD.tsx:225 | the caret is rendered exactly when streaming and the cursor is shown, and then the shown text is the prefix up to the index |
| `DisplayMD.OrDefault` | src/DisplayMD.tsx:14-18 | a prop that is `undefined` takes its default value; a given prop is used as is |
| `DisplayMD.DefaultSession` | src/DisplayMD.tsx:16-17 | with the default props the speed is 5 and the interval is 30 ms, and the session finishes after `ceil(length / 5) + 1` stream ticks |
| `DisplayMD.Mount` | src/DisplayMD.tsx:26-34 | mounting the view starts the session for its props |
| `DisplayMD.Lines` | src/DisplayMD.tsx:68 | `split('\n')` gives at least one line, and no line contains a newline |
| `DisplayMD.LinesCount` | src/DisplayMD.tsx:69 | there is one more line than there are newlines |
| `DisplayMD.JoinSplit` | src/DisplayMD.tsx:68 | joining the lines with `\n` gives back the text |
| `DisplayMD.SplitJoin` | src/DisplayMD.tsx:68 | splitting the join of newline-free lines gives back the lines |
| `DisplayMD.ScrollTarget` | src/DisplayMD.tsx:65-69 | the view scrolls only when both containers are mounted and the line exists; the target line is `lineNum - 1` |
| `DisplayMD.ScrollGuard` | src/DisplayMD.tsx:66-69 | the view scrolls exactly when mounted and `1 <= lineNum <= newlines + 1` |
| `DisplayMD.LineInput` | src/DisplayMD.tsx:123 | `parseInt(value) \|\| 1`: a failed parse or 0 gives 1, and any other number is kept |
| `DisplayMD.FallbackLineExists` | src/DisplayMD.tsx:22 | the initial line 1 and the input's fallback always name an existing line; a negative entry is ignored |
| `DisplayMDNode.Title` | src/DisplayMDNode.tsx:106 | the title is `data.label` when present, otherwise `Note` |
| `DisplayMDNode.EmptyLabelKept` | src/DisplayMDNode.tsx:106 | `??` keeps an empty label; only a missing one gives `Note` |
| `DisplayMDNode.NodeStreaming` | src/DisplayMDNode.tsx:95-96 | with the fixed speed 5 the node finishes after `ceil(length / 5) + 1` stream ticks and stays finished, and what it shows only grows and stays a prefix of the content |
| `DisplayMDNode.NodeTick` | src/DisplayMDNode.tsx:117-121 | a tick short of the end shows `content.slice(0, index + 5)` and advances the index by 5 |
| `DisplayMDNode.Mount` | src/DisplayMDNode.tsx:108-113 | mounting the node starts a session with speed 5 and interval 30 |
| `FolderTree.Kids` | src/FolderTreeView.tsx:7 | the optional `children` as a list, empty when absent |
| `FolderTree.RootItems` | src/FolderTreeView.tsx:87-95 | each root item has level 0, path `[name]` and the view's default expansion |
| `FolderTree.ChildItems` | src/FolderTreeView.tsx:68-76 | each child item is one level deeper, has the child's name appended to the path and the same default |
| `FolderTree.RootsWellPlaced` | src/FolderTreeView.tsx:90-92 | root items have a path one longer than their level, ending in their name |
| `FolderTree.ChildrenWellPlaced` | src/FolderTreeView.tsx:72-73 | children of a well-placed item are well placed, and their path extends the parent's path by one name |
| `FolderTree.DescendPath` | src/FolderTreeView.tsx:66-77 | an item reached through `r` nested children sits `\|r\|` levels deeper, its path is the ancestor's path plus the names along the way, and it is well placed when the ancestor is |
| `FolderTree.Indent` | src/FolderTreeView.tsx:51 | the indentation is at least 8 pixels, 8 more than a multiple of 20, and that multiple of 20 is the level, so the level can be read back from it |
| `FolderTree.ChildIndent` | src/FolderTreeView.tsx:72 | each level indents 20 pixels more than its parent, and roots indent 8 |
| `FolderTree.Toggle` | src/FolderTreeView.tsx:29-40 | a click changes the flag exactly when the node is a folder with non-empty children |
| `FolderTree.ToggleSpec` | src/FolderTreeView.tsx:26-27 | flipping twice restores the flag |
| `FolderTree.RenderedChildren` | src/FolderTreeView.tsx:66-68 | children are rendered exactly when the node is an expanded folder with children, and then they are the child items |
| `FolderTree.IconOf` | src/FolderTreeView.tsx:54-63 | items show the document icon, and the open-folder icon shows exactly for an expanded folder with children |
| `FolderTree.TreeNodeItem.constructor` | src/FolderTreeView.tsx:24-25 | the initial flag is `defaultExpanded` |
| `FolderTree.TreeNodeItem.HandleToggle` | src/FolderTreeView.tsx:29-34 | the icon handler toggles with the same guard and invokes no callback |
| `FolderTree.TreeNodeItem.HandleClick` | src/FolderTreeView.tsx:36-45 | a click toggles with the guard, then invokes `onItemClick(node, path)` whenever a callback is given, whatever the node type |
| `FolderTree.TreeNodeItem.VisibleChildren` | src/FolderTreeView.tsx:67-78 | the rendered child items are those of an expanded folder with children, each well placed below a well-placed item |

## Findings

| source | as written | input that shows it | evidently intended | confidence | as-written member | corrected member |
|---|---|---|---|---|---|---|
| src/MarkdownEditor.tsx:81-90 | `forEach` fixes its number of turns at the child list's starting length, while `splice` inside the visit inserts the pieces in place; after a text child splits into more pieces, the later siblings move back and the last of them are never visited | a paragraph whose children are the text nodes `"x ??a??"` and `"??b??"` (or `"x ??a?? "`, an emphasis node, `" ??b??"`): the last one keeps its `??b??` unhighlighted | every child is visited once, so that no text node below the root keeps a match | high, not executed | `RemarkHighlight.VisitAsWritten` | `RemarkHighlight.TransformChildrenClean` |

The same loop appears in src/backup/MarkdownEditor.tsx:56-65.
`RemarkHighlight.ForEachSkipsLastSibling` exhibits the discrepancy on the
input above. The rest of the model uses the rebuild
(`RemarkHighlight.TransformChildren`, performed by
`RemarkHighlight.VisitChildren`). That rebuild moves the splice index past
the inserted pieces and reaches every child.

## Left out

- Browser event plumbing of the editor is not modelled: mouse-over, mouse-out and selection listeners, `setTimeout`, `querySelector`. These are DOM I/O.
- Popover coordinates from `getBoundingClientRect` are not modelled. They are floating point.
- How a browser parses the emitted span is not modelled. In particular, the label's quotes are inserted without escaping into the quoted `data-popover` attribute. The model states the span text as the template literal writes it.
- Scroll positions in `scrollToLine`, `scrollToTop` and `scrollToBottom` are not modelled. They use floats and DOM `scrollTo`. Only the integer line-range guard is modelled.
- Real timers are not modelled. `setInterval` periods (30 ms, 530 ms) only pace the callbacks. Each callback is an explicit step, and interleavings are arbitrary sequences of steps. React's batching and scheduling of state updates is not modelled.
- `Streaming.StreamingView.Restart` performs the effect cleanup and the effect's re-run as one step. It does not model a cleared interval firing late.
- Text outside the Basic Multilingual Plane is not modelled. A Dafny `string` here stands for the sequence of UTF-16 code units that JavaScript's `length`, `slice` and `split` count, so one character is one code unit; in the source a reveal step (`Streaming.JsPrefix`) can stop between the two halves of a surrogate pair, which the model does not distinguish.
- `Streaming.StreamingView.Tick` takes the speed as an integer. A fractional `number` speed is not modelled.
- `DisplayMD.LineInput` takes the result of `parseInt` as a parameter (`None` for `NaN`). The parse itself is not modelled.
- `DisplayMDNode`'s content is a module-level sample text. It is a parameter here.
- Markdown parsing, `ReactMarkdown` and `MDEditor` rendering, remark-gfm, remark-math, rehype-katex and the identity `rehypeHighlight` are not modelled. They are library code. The transform acts on any tree of `text`, `html` and other nodes.
- The mutation of each node's `children` in place during the walk is modelled as a rebuild of each child list.
- The callback `onItemClick` is modelled as the returned `(node, path)` pair it would receive.
- React keys (`name-index`) are not modelled.
- Inline styles and `<style>` blocks are not modelled, except the style strings inside the emitted span.
- The map views, the mind-map canvas and the demo application's static data and logging callback are not part of this model.
