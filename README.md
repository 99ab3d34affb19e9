# 100stars — a verified Dafny model of the goal tree, list view and CSV export

100stars is a browser app for collecting life goals ("stars") on a mind map.
The user ("Me") is the root. Categories hang under the root and stars hang
under categories or under other stars. All nodes live in one flat array and
point to their parent by id. The state is saved to browser storage as one
snapshot.

This project models the logic of that app in Dafny:

- **TreeState** (`state.dfy`) models the tree store of `js/state.js`:
  - the node record;
  - `clamp`, `findNode` and `childrenOf`;
  - `rootCategoryOf`, the cycle-guarded walk up to the nearest category. It
    is written as a loop, as in the source, and proved equal to a recursive
    specification, `CategoryOf`. Further lemmas prove that this specification
    finds the *nearest* category (soundness), finds it whenever it exists on a
    repeat-free path (completeness), and terminates on any parent links.
- **MindMap** (`mindmap.dfy`) models the controller of `js/main.js`. It is a
  class whose fields are the node array, the pan/zoom view, the selection,
  the last stored snapshot, the node-drag record and the pan record.
  - Each panel action, zoom handler, pan handler and drag handler is a method
    that states its complete new state.
  - The default tree, add-child, save and delete are also specified as values,
    and lemmas prove that they keep the data-model invariants: unique ids and
    exactly one parentless root.
  - The subtree delete is the source's `while (changed)` fixed-point loop. It
    is proved to compute the *least* id set that contains the target and is
    closed under "parent in set ⇒ child in set".
- **StarList** and **Csv** (`list.dfy`, `csv.dfy`) model the list page of
  `m/js/list.js`:
  - the star projection and the search filter;
  - `sortList`, an in-place stable sort of a copy. It is proved sorted and
    order-preserving within each key, and therefore a permutation;
  - the done count;
  - the CSV export. A CSV reader is defined next to it, and reading back the
    exported text is proved to give the header and one row per item.
- **GenreList** (`listview.dfy`) models `m/listView.js`, which uses its own
  schema (`rating`, categories under the literal parent id `"root"`):
  - `priorityColor`;
  - `escapeHtml`, with its inverse;
  - the per-category grouping and ordering of `renderGenreList`.
- **Seqs** and **Text** (`seqs.dfy`, `text.dfy`) model the JavaScript
  built-ins the core relies on: `filter`, `trim`, ASCII `toLowerCase`,
  `includes`, `join` and `String(n)` for integers.

Ids, timestamps, random positions, the pointer's world coordinates and the
user's answer to `confirm` are method parameters. Collation (`localeCompare`)
and `Date` parsing are parameters too, each a function from a string to an
integer key.

## Model

| member | source | states |
|---|---|---|
| TreeState.Clamp | js/state.js:9-11 | with a ≤ b the result lies in [a, b]; a value already in range is returned; below-range values give a, above-range values give b |
| TreeState.ClampIdempotent | js/state.js:9-11 | clamping twice to the same interval is clamping once |
| TreeState.FindIndex | js/state.js:21-23 | the index found holds the id and no earlier node has it; none found means no node has it |
| TreeState.FindNode | js/state.js:21-23 | the node returned is in the array and has the id; null exactly when no node has the id |
| TreeState.FindNodeFirst | js/state.js:21-23 | when node i is the first with the id, `findNode` returns node i |
| TreeState.ChildrenOf | js/state.js:25-27 | a node is returned iff it is stored and its `parentId` equals the argument; each such node keeps its multiplicity; the result is an order-preserving subsequence |
| TreeState.RootCategoryOf | js/state.js:29-43 | the loop over `cur` and `guard` terminates on any parent links and returns `CategoryOf`: the walk's category title, else the node's own title if it is a category, else "" |
| TreeState.WalkFoundIsNearest | js/state.js:33-39 | a title the walk returns is the title of the nearest category ancestor (no category strictly between) |
| TreeState.NearestIsFound | js/state.js:33-39 | if the nearest category is k steps up along a path with no repeated id, the walk returns its title |
| TreeState.SelfParentedCategory | js/state.js:33-42 | a node whose parent link points to itself resolves after one step to its own title if it is a category, else "" |
| MindMap.FindMe | js/main.js:72 | the root found is in the array and is `isMe`; none exactly when no node is `isMe` |
| MindMap.FindMeFirst | js/main.js:72 | when node i is the first `isMe` node, `find` returns node i |
| MindMap.DefaultNodes | js/main.js:80-118 | the root (`isMe`, "Me", null parent, locked) comes first, then one locked category per default name in order, each with priority 1 and the root as parent |
| MindMap.MakeDefaultData | js/main.js:76-125 | the push loop yields exactly `DefaultNodes`, view scale 0.8 at offset (0, 0), and the given timestamp |
| MindMap.DefaultNodesWellFormed | js/main.js:76-125 | with fresh distinct ids the default tree has unique ids and one parentless root, and each category resolves to its own title |
| MindMap.NewChild | js/main.js:536-552 | the child has the parent's id as parent and is neither root nor completed, with createdAt = updatedAt; under the root it is a locked category "New category" with priority 1, otherwise an unlocked star "New star" with priority 3 |
| MindMap.AddChildKeepsWellFormed | js/main.js:554 | appending a child with a fresh id keeps ids unique and the root unique and parentless |
| MindMap.AddUnderMeIsCategory | js/main.js:536-549 | a child added under the root is a category and resolves to its own title |
| MindMap.AddUnderCategoryResolves | js/main.js:543 | a child added under a category resolves to that category's title |
| MindMap.SavedTitle | js/main.js:509-514 | a locked title is unchanged; an unlocked one becomes the trimmed input, or "Untitled" exactly when the input is all whitespace, and never starts or ends with whitespace |
| MindMap.Edited | js/main.js:509-519 | the saved node changes only title, notes (trimmed), completed, parent (null for an empty choice) and updatedAt |
| MindMap.SaveKeepsWellFormed | js/main.js:505-524 | saving a non-root node, or saving with no parent chosen, keeps the data-model invariants |
| MindMap.PanelParentValue | js/main.js:249-298 | the select shows "" or one of its options (the root's id, the categories' ids); a parent id that is an option is shown; one that is not shows ""; with no parent the root's id is shown |
| MindMap.SaveDetachesStarUnderStar | js/main.js:266-298 | a star whose parent is another star shows "" in the parent select, so saving it sets its parent to null |
| MindMap.SaveRootSelfParents | js/main.js:298 | with the panel's preselected parent, saving the root sets its parent to itself, and the category walk still ends |
| MindMap.DescendantsIsLeast | js/main.js:574-584 | the fixed point contains the start set, is closed under "parent in set ⇒ id in set", and lies inside every closed superset |
| MindMap.DeleteSetIsLeast | js/main.js:574-584 | the delete set contains the target, is closed, lies inside every closed set containing the target, and holds only node ids and the target |
| MindMap.Survivors | js/main.js:585 | the kept nodes are exactly those whose id is outside the set, each with its multiplicity, in their original order |
| MindMap.SurvivorsKeepNoDeletedParent | js/main.js:585 | no survivor's parent id is in the delete set |
| MindMap.GrowPass | js/main.js:577-583 | one pass of the `for` loop only adds ids from the closure; a pass that sets `changed` adds a new one; a pass that does not leaves the set closed |
| MindMap.DeleteClosure | js/main.js:574-584 | the `while (changed)` loop terminates and returns exactly the least closed set containing the target |
| MindMap.RemoveSubtree | js/main.js:574-585 | the node array after delete is the survivors of that set |
| MindMap.UnparentedNodeSurvives | js/main.js:579 | with unique ids, a node other than the target whose parent is null, empty or itself survives |
| MindMap.ChildOfTargetIsDeleted | js/main.js:574-585 | a node whose parent is the delete target is deleted with it, the root included |
| MindMap.DeleteKeepsWellFormed | js/main.js:567-590 | from well-formed data (one parentless root, unique ids), deleting a non-root node keeps the data-model invariants, so the root survives |
| MindMap.MindMap.SelectedIndex | js/main.js:480 | the index found is the first node whose id is the (non-empty) selection; none when the selection is empty or no node has that id |
| MindMap.MindMap.Boot | js/main.js:42-74 | the loaded snapshot is used as is; with none, the default tree is built, the view is centred on the map and saved; then the root is selected |
| MindMap.MindMap.SaveAll | js/main.js:127-131 | the store receives the current nodes, view and timestamp |
| MindMap.MindMap.Select | js/main.js:244-247 | the selection becomes the given id and nothing else changes |
| MindMap.MindMap.SetPriority | js/main.js:478-485 | with no selected node nothing changes; otherwise only that node's priority changes, and nothing is saved |
| MindMap.MindMap.SetCompleted | js/main.js:488-494 | with no selected node nothing changes; otherwise only that node's completed flag changes, and nothing is saved |
| MindMap.MindMap.SetLockedTitle | js/main.js:497-502 | with no selected node nothing changes; otherwise only that node's lock changes, and nothing is saved |
| MindMap.MindMap.Save | js/main.js:505-524 | with no selected node nothing changes; otherwise only that node is replaced by `Edited`, and the result is saved |
| MindMap.MindMap.AddChild | js/main.js:527-558 | with no selected parent nothing changes; otherwise exactly one `NewChild` is appended, existing nodes are untouched, the result is saved and the child is selected |
| MindMap.MindMap.DeleteTarget | js/main.js:568-571 | a target exists exactly when a node is selected, it is not the root and the dialog is confirmed; the target is that node |
| MindMap.MindMap.Delete | js/main.js:567-592 | with no target the node array, store and selection are unchanged; otherwise the array becomes the survivors of the delete set, it is saved, and the root is selected |
| MindMap.MindMap.SetZoom | js/main.js:596-601 | the scale always ends in [0.2, 2.5] and equals the request when that is in range; only the scale changes; the view is saved |
| MindMap.MindMap.Wheel | js/main.js:459-463 | the scale moves by -0.06 for positive deltaY and +0.06 otherwise, clamped, and is saved |
| MindMap.MindMap.ZoomButton | js/main.js:466-468 | the scale moves by ±0.10, clamped, and is saved |
| MindMap.MindMap.MapPointerDown | js/main.js:438-443 | on a node nothing changes; elsewhere panning starts from the pointer and the current offset |
| MindMap.MindMap.MapPointerMove | js/main.js:445-450 | while panning the offset is the start offset plus the pointer displacement; otherwise nothing changes |
| MindMap.MindMap.MapPointerUp | js/main.js:452-457 | panning ends; a pan that was under way is saved |
| MindMap.MindMap.NodePointerDown | js/main.js:359-387 | main button on an existing node arms an inactive candidate with its pointer, client point and world start; otherwise the drag record is unchanged |
| MindMap.MindMap.NodePointerMove | js/main.js:389-417 | foreign pointers, missing nodes and moves under 3 px from an inactive start change nothing; otherwise the drag becomes active and only that node moves, by the world displacement |
| MindMap.MindMap.EndNodeDrag | js/main.js:329-357 | with no candidate nothing changes; otherwise every drag field is reset; an inactive candidate is a click that selects it without saving; an active drag is saved when committed and keeps the selection |
| MindMap.MindMap.NodePointerRelease | js/main.js:420-428 | a different pointer than the candidate's changes nothing; otherwise the drag ends as `endNodeDrag(true)` |
| MindMap.MindMap.LostPointerCapture | js/main.js:430-432 | the drag ends as `endNodeDrag(true)` |
| MindMap.ClickSelectsWithoutSaving | js/main.js:329-428 | press on a node and release within 3 px: the node is selected, no node moves and nothing is saved |
| MindMap.DragThenReleaseSaves | js/main.js:329-428 | press on a node, move at least 3 px and release: only that node moves, by the pointer's world displacement, and the result is saved |
| MindMap.SaveRootUnderCategoryThenDelete | js/main.js:505-592 | select the root, save it with a category as parent, then delete that category: no root is left and nothing is selected |
| MindMap.DeleteParentOfRoot | js/main.js:567-592 | deleting the node the root hangs under leaves no root and selects nothing |
| StarList.Items | m/js/list.js:16-25 | empty without data; otherwise exactly the stored nodes that are neither root nor category, each with its multiplicity, in order |
| StarList.Search | m/js/list.js:37-47 | an empty trimmed query keeps every item; otherwise an item is kept iff its lowercased "title notes" text contains the query at some index; a kept item keeps its multiplicity; the result is a subsequence of the items |
| StarList.DoneCount | m/js/list.js:51 | the done count never exceeds the list length |
| StarList.DoneCountExtremes | m/js/list.js:51 | the count is 0 iff nothing is done, and the full length iff everything is |
| StarList.Num | m/js/list.js:58 | a priority is its own number; the result is 0 exactly for a missing or zero priority |
| StarList.Time | m/js/list.js:59-63 | a parsed date is its instant; the result is 0 exactly for an unparsable date or the instant 0 |
| StarList.SortKey | m/js/list.js:65-77 | for each of the six known sorts, the comparator `sortList` passes to `sort` is the difference of the keys of its two arguments |
| StarList.SwapKeepsKeyOrder | m/js/list.js:66-78 | swapping neighbours with different keys keeps the order within every key |
| StarList.SameKeyOrderIsPermutation | m/js/list.js:57-80 | the same order within every key implies the same elements |
| StarList.InsertLeft | m/js/list.js:66-78 | one insertion step extends the sorted prefix by one and keeps the order within every key |
| StarList.SortInPlace | m/js/list.js:66-78 | the array ends sorted by the key, and the order within each key is unchanged (a stable sort) |
| StarList.SortList | m/js/list.js:56-81 | the result is a permutation of the argument; for a known sort key it is sorted and stable; for an unknown key it is the argument's order |
| StarList.PrioritySortOrder | m/js/list.js:59-69 | under the two priority sorts, `num(priority)` is non-increasing or non-decreasing, a missing priority counting as 0 |
| StarList.Render | m/js/list.js:36-54 | the shown list is the search result, sorted as `SortList` sorts it, and the done count is its number of completed items |
| StarList.Row | m/js/list.js:122-130 | every exported row has the header's seven fields |
| StarList.ItemRows | m/js/list.js:121-131 | one row per item, in item order, each with its `rootCategoryOf` category |
| StarList.ExportTable | m/js/list.js:118-131 | the fixed header followed by exactly one row per item |
| StarList.HeaderNeedsNoQuotes | m/js/list.js:118-119 | the header names are written without quotes |
| StarList.ExportLine | m/js/list.js:121-131 | each line is the item's seven fields passed through `csv`, joined by commas |
| StarList.ExportLines | m/js/list.js:119-134 | the text is the LF-joined encoded records of the header and one row per item, and reads back as them |
| StarList.ExportCsv | m/js/list.js:117-135 | the exported text is the LF-joined encoded records of the export table, and reads back as the header and one seven-field row per item, unfiltered and in order; completed is written TRUE/FALSE, a null priority as 1 |
| Csv.LettersNeedNoQuotes | m/js/list.js:139 | a text of ASCII letters needs no quoting |
| Csv.Field | m/js/list.js:137-141 | a value with no `"`, `,` or LF is returned as is; otherwise the result is wrapped in quotes |
| Csv.FieldsAt | m/js/list.js:121-129 | the i-th encoded field is `csv` of the i-th value |
| Csv.FieldRoundTrip | m/js/list.js:137-141 | reading an encoded field gives back the value (quotes stripped, inner quotes un-doubled) and stops at the next separator |
| Csv.RecordRoundTrip | m/js/list.js:121-131 | reading a comma-joined encoded record gives back its fields |
| Csv.FileRoundTrip | m/js/list.js:119-134 | reading an LF-joined file of encoded records gives back the records |
| GenreList.PriorityColor | m/listView.js:2-8 | ratings 2, 3, 4 and 5 get their fixed colours; white exactly for every other rating |
| GenreList.PriorityColorsDistinct | m/listView.js:2-8 | the four colours are pairwise distinct |
| GenreList.Entity | m/listView.js:11-17 | each of `&<>"'` becomes an entity from `&` to `;`; every other character is kept |
| GenreList.EscapeHtml | m/listView.js:10-18 | the output is at least as long as the input |
| GenreList.EscapeValue | m/listView.js:11 | a missing value escapes to "" |
| GenreList.EscapeConcat | m/listView.js:11-17 | escaping works character by character and keeps order: it distributes over concatenation |
| GenreList.EscapePlain | m/listView.js:11 | text without the five special characters is unchanged |
| GenreList.EscapeIsSafe | m/listView.js:10-18 | the output contains no `<`, `>`, `"` or `'` |
| GenreList.UnescapeEscape | m/listView.js:11-17 | replacing the five entities back recovers the input |
| GenreList.SortKids | m/listView.js:34-37 | the kids end ordered by rating non-increasing, ties by collation key, and are a permutation of the input |
| GenreList.Categories | m/listView.js:29 | exactly the nodes with parent id "root", each with its multiplicity, as an order-preserving subsequence |
| GenreList.Kids | m/listView.js:32-37 | exactly the nodes whose parent id is the category's id, each with its multiplicity, in kid order |
| GenreList.KidEntry | m/listView.js:40-45 | a kid's row selects its id, is coloured by its rating (0 or missing shown white), shows its escaped title and `★` followed by its rating (0 when missing) |
| GenreList.GroupOf | m/listView.js:39-63 | the head shows the escaped category title and a count equal to the number of kids; one row per kid in kid order, or one white placeholder row that selects the category |
| GenreList.GenreGroups | m/listView.js:29-64 | one group per category, in category order |
| GenreList.GroupRowsSelect | m/listView.js:40-53 | every row selects a kid of its category or the category itself |

## Left out

- DOM rendering, SVG wires, toasts, the `confirm` dialog and event wiring are left out; `confirm`'s answer is a parameter of `Delete`.
- Storage (`js/storage.js`) is left out. A load returns a whole snapshot or nothing, and a save is recorded in the `stored` field.
- The reset button is left out, because it only clears storage and reloads the page.
- `makeId`, `nowISO`, `rand` and `deepClone` are left out, because they are random, clock-based or serialisation. Ids, timestamps, positions and offsets are parameters.
- `screenToWorld` is left out, because it is floating-point geometry; its result is a parameter of the pointer handlers.
- The 3 px threshold is compared on integer client coordinates as squared distance against 9, instead of `Math.hypot`.
- `localeCompare` and `Date` parsing are left out, because they depend on locale and engine behaviour; they are parameters mapping strings to integer keys.
- Case folding covers ASCII only, because Unicode `toLowerCase` is engine behaviour.
- Values are assumed to be of their documented types. Priorities are integers or missing; non-numeric priorities, `NaN`, and `String(v)` on non-string values are not modelled.
- `Boot` is modelled as a whole snapshot or nothing. A snapshot missing `nodes` or `view`, the view field merge and the `completed` migration loop are not modelled.
- The list page imports `rootCategoryOf` from m/js/state.js. m/js/state.js is not part of this model, so it is taken to be the js/state.js function.
- The lines at js/main.js:560-564 sit inside `bindEvents` after the add-child handler (527-558) has closed. They repeat that handler's tail and use a `child` that is not in scope. Their `});` at 564 has no open call to close, so the `}` at 594 is unmatched too, and the file as written does not parse. The model reads the file as evidently intended: one add-child handler, the delete handler, and `bindEvents` ending at 594.
- MindMap.PanelParentValue: the select offers only the root and the categories (js/main.js:255-271). Setting it to any other value leaves it reading "", so saving a star whose parent is another star writes a null parent (`SaveDetachesStarUnderStar`). The model follows the code.
- MindMap.DeleteKeepsWellFormed: it needs well-formed data, and a reachable save can break that. Saving the root with a category chosen in the parent select (js/main.js:266-271, 518) makes the root a child of that category. Deleting the category then deletes the root too: the guard at 569 checks only the selected node, the cascade at 579 follows the root's parent link, and the `find` at 589-590 finds no root, so nothing is selected. `ChildOfTargetIsDeleted` and `SaveRootUnderCategoryThenDelete` state this.
- MindMap.MindMap.Wheel: the view's numbers are mathematical reals, so its exact steps of 0.06 hold over reals only. JavaScript doubles round each step.
- MindMap.MindMap.ZoomButton: its exact steps of 0.10 hold over reals only, not over IEEE doubles.
- MindMap.MindMap.SetZoom: its clamp is exact over reals; the double rounding of the slider value is not modelled.
- The esc helpers at js/main.js:237-241 and m/js/list.js:110-114 are copies of `escapeHtml` and are not modelled separately.
- The data model says the root never has a parent, but the code lets saving the root with the panel's preselected parent point the root at itself (js/main.js:298, 518). The model follows the code: `SaveKeepsWellFormed` is stated only for non-root nodes or an empty parent choice, and `SaveRootSelfParents` shows the self-link and that the category walk still ends.
- GenreList.SortKids: states ordering and permutation only. Stability (ties kept in filter order) is not stated.
- GenreList.EscapeHtml: its own contract gives only the length bound. Safety, per-character replacement and the inverse are stated in `EscapeIsSafe`, `EscapeConcat`/`Entity` and `UnescapeEscape`.
- StarList.DoneCount: only the bound is in its contract; the exact extremes are in `DoneCountExtremes`.
- The genre list's grouping is modelled as values (`Group`, `Entry`). The HTML markup and click binding are not modelled.
