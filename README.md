# Travel journal: the journal engine

A model of the journal engine in `src/app.js` of the travel-journal web app.
Each destination ("entry") has one journal document. A document holds:

- an ordered forest of nodes. A node is `{id, title, type, children?}` and is a page or a section;
- a `pages` map from a page id to its content `{id, title, html, created, updated}`;
- the id of the selected node.

The model covers:

- the lazy creation of a document;
- the path lookup through the forest and the two splice helpers;
- the eight tree actions of the side panel: add page, add section, rename, delete, move up, move down, indent and outdent;
- node selection together with the editor content and the breadcrumb it shows;
- the 300 ms autosave debounce and the closing of the overlay;
- the list of destinations: upsert, remove, and the check an imported batch must pass.

Modules:

- `Wrappers`: the `Option` type, standing for `null` and `undefined`.
- `Tree`: pure definitions.
  - Nodes, frames and paths.
  - The pre-order id sequence of a forest.
  - `FindNodePath`.
  - JavaScript's `splice` as `SpliceInsert`, `InsertAfter` and `RemoveAt`, including the normalisation of the start index and the `undefined` that an out-of-range `removeAt` returns.
  - A path-directed functional update (`ArrayAt`/`ReplaceArray`). It stands for an in-place splice on an array nested anywhere in the forest.
  - The breadcrumb.
- `Journal`: the class `JournalDoc`, with one method per tree action. It also holds the invariant `Consistent`:
  - ids are unique;
  - every page node has a `pages` entry;
  - every entry is keyed by its own id;
  - a set selection names a node of the tree.
- `Overlay`: the class `Session`. It holds the documents index, the open entry and page, the editor content, the breadcrumb text, and the pending autosave timer.
- `Entries`: the class `EntryList` and the import check.
- `Scenarios`: small documents on which the handlers are run step by step.

The model follows the code wherever the code and the documented intent differ:

- Outdent removes the element at the *parent's* index from the parent's children, not the selected node. It reinserts that element after the *grandparent*, or at the head of the root. `Scenarios.IndentThenOutdent` shows that indenting a page and then outdenting it does not restore the tree. `Scenarios.OutdentMovesSibling` shows that outdent can move a sibling instead of the selected page.
- Deleting a section keeps the `pages` entries of the pages inside it (`Scenarios.DeleteSectionKeepsPageEntry`).
- Indent gives a page a `children` array. For that reason every node kind may have children here.
- Selecting another page does not flush a pending save (`Scenarios.SwitchLosesPendingEdit`).

Values produced by `crypto.randomUUID`, `Date.now`, `prompt` and `confirm` are parameters of the methods. The expiry of the autosave timer is an explicit `Tick(now)` step: the pending save fires once `now` reaches its due time.

## Model

| member | source | states |
|---|---|---|
| Tree.FindNodePathSpec | src/app.js:99-110 | The lookup gives null exactly when no node of the forest has the id. Otherwise the path is a chain: the first frame's array is the root, each later frame's array is the previous node's children, and every frame's node sits at its index. The last node has the id and is the first match in pre-order. |
| Tree.FindFromSpec | src/app.js:100-109 | The scan from index `i` fails exactly when the id is absent from `forest[i..]`. On success the path is a chain to the id, and no root before the hit contains the id. |
| Tree.RouteReaches | src/app.js:102-105 | Following the indices of a path's earlier frames from the root reaches the array that holds the last node. |
| Tree.SpliceInsert | src/app.js:111 | `splice(start, 0, x)` grows the array by one and adds exactly `x` to its contents. For an in-range start, `x` lands at that start. |
| Tree.InsertAfter | src/app.js:111 | The node lands at `index + 1`; the elements before and after are kept in order; the contents gain exactly the node. |
| Tree.RemoveAt | src/app.js:112 | In range, it returns the element at the index and the array without it. Past the end, it returns `undefined` and the array unchanged. Contents are conserved. |
| Tree.CollectInsert | src/app.js:111 | Inserting a node adds exactly that node's subtree ids to the forest's ids. |
| Tree.CollectRemove | src/app.js:112 | Removing an element takes away exactly that element's subtree ids. |
| Tree.ReplaceCollect | src/app.js:111-112 | Editing one nested array in place changes the forest's ids by exactly the change in that array's ids. |
| Tree.ChainInside | src/app.js:99-110 | The subtree at the end of a path lies inside the forest: its ids are a sub-multiset of the forest's ids. |
| Tree.PageIdsAreIds | src/app.js:82 | Every page id is a node id. |
| Tree.BreadcrumbSteps | src/app.js:511 | The breadcrumb (`Breadcrumb`, the path's titles joined by `Join`) unfolds one frame at a time. A one-frame breadcrumb is that node's title. A longer one is the breadcrumb of the path's prefix, then `" / "`, then the last title. |
| Journal.SeedConsistent | src/app.js:88-93 | The seed tree holds exactly the one page `pid`. Seed tree, seed pages and selection `pid` together satisfy the document invariant. |
| Journal.JournalDoc.Seed | src/app.js:88-93 | A new document is the single page "Page 1", with one `pages` entry of empty html, and selects that page. |
| Journal.JournalDoc.Restore | src/app.js:84 | A document read back from storage holds exactly the stored tree, pages and selection. No invariant is assumed of it. |
| Journal.JournalDoc.Selected | src/app.js:439 | The selection resolves exactly when `selectedId` is truthy and names a node of the tree. It then resolves to a chain whose last node has that id, the first such node in pre-order. |
| Journal.JournalDoc.Add | src/app.js:440-453 | The new node (`NewNode`) is a page titled "Nouvelle page" without children, or a section titled "Nouvelle section" with an empty children array. With a resolved selection, the new node is inserted right after the selected node in its own array. Without one, it is appended to the root. Only `add-page` adds a `pages` entry, with empty html. The selection becomes the new id, and the ids gain exactly that id. The invariant is kept when the id is fresh. |
| Journal.AddKeepsConsistent | src/app.js:442-453 | Adding one fresh id, plus a `pages` entry when it is a page, keeps the document invariant with the new node selected. |
| Journal.InsertAtSelection | src/app.js:451 | Inserting after the selected node adds exactly the new node's ids to the whole forest. |
| Journal.JournalDoc.Rename | src/app.js:458-463 | An empty or cancelled answer, or an unresolved selection, changes nothing. Otherwise only the selected node's title changes. A page's `pages` title follows it. Ids, selection and the invariant are kept. |
| Journal.RetitleKeepsIds | src/app.js:461 | Changing one node's title leaves the forest's id sequence as it was. |
| Journal.JournalDoc.Delete | src/app.js:466-471 | Without confirmation or a resolved selection, nothing changes. Otherwise the selected subtree leaves its array, and the ids lose exactly that subtree. Only a page loses its own `pages` entry; the pages under a section keep theirs. The selection becomes `FirstRoot`: the first root's id when it is truthy, otherwise null (`tree[0]?.id \|\| null`). The invariant is kept. |
| Journal.DeleteKeepsConsistent | src/app.js:468-470 | Removing a subtree, plus the entry of a removed page, keeps the invariant with the first root selected. |
| Journal.DeleteKeepsCover | src/app.js:469 | After a delete, every remaining page still has its entry. |
| Journal.RemoveAtSelection | src/app.js:468 | Removing the selected node takes exactly its subtree's ids out of the forest. |
| Journal.RemovedRootGone | src/app.js:468-470 | With unique ids, no id left in the tree after a delete is the removed node's id. |
| Journal.ShrinkKeepsUnique | src/app.js:468 | Removing ids from a forest with unique ids leaves them unique. |
| Journal.JournalDoc.MoveUp | src/app.js:474-477 | When the index is above 0, the node is swapped with its previous sibling. Otherwise, or with no resolved selection, nothing changes. Pages, selection, the id multiset and the invariant are kept. |
| Journal.UpIsSwap | src/app.js:475 | Removing at `i` and reinserting at `i - 1` swaps the elements at `i - 1` and `i`. |
| Journal.JournalDoc.MoveDown | src/app.js:479-482 | When the node is not last, it is swapped with its next sibling. Otherwise nothing changes. Pages, selection, the id multiset and the invariant are kept. |
| Journal.DownIsSwap | src/app.js:480 | Removing at `i` and reinserting at `i + 1` swaps the elements at `i` and `i + 1`. |
| Journal.SwapKeepsIds | src/app.js:475 | Swapping two neighbours keeps the array's id multiset. |
| Journal.SwapAtSelection | src/app.js:475 | A swap in the selected node's array keeps the whole forest's id multiset. |
| Journal.JournalDoc.Indent | src/app.js:484-490 | When the index is above 0, the node leaves its array and becomes the last child of its previous sibling, which gets a children array if it had none. Otherwise nothing changes. The pre-order id sequence, pages, selection and the invariant are kept. |
| Journal.IndentIsAdoption | src/app.js:485-488 | The splice-then-push is the previous sibling adopting the node as its last child. |
| Journal.AdoptionKeepsOrder | src/app.js:485-488 | Adoption leaves the pre-order id sequence, and the page-id sequence, exactly as they were. |
| Journal.SameAtSelection | src/app.js:487-488 | Replacing the selected node's array by one with the same id sequence keeps the forest's sequence. |
| Journal.JournalDoc.Outdent | src/app.js:492-500 | At depth 1, or with no resolved selection, nothing changes. When the parent's index is in range of the selected node's array, the outcome is `Moved` and the tree becomes the as-written outdent. In that case the pages, the selection, the id multiset and the invariant are kept. Otherwise the source inserts `undefined`: the outcome is `InsertedUndefined` carrying the hole's position (`HoleAt`), and the model's tree stays the tree around that hole (see "## Left out"). |
| Journal.HoleAt | src/app.js:494-499 | The `undefined` lands right after the grandparent in the grandparent's array, or at position 0 of the root at depth two. That position is a valid insertion point of that array. |
| Journal.OutdentAsWrittenSpec | src/app.js:493-499 | The as-written outdent keeps the id and page-id multisets. The moved element is the one at the parent's index. At depth 2 it lands at the head of the root; deeper, it lands right after the grandparent in the grandparent's array. |
| Journal.OutdentCollect | src/app.js:495-499 | Removing the element and reinserting it higher up keeps the id multiset. |
| Journal.ReshapeKeepsConsistent | src/app.js:474-500 | Any edit that keeps the id and page-id multisets keeps the invariant. |
| Journal.ChainRouteAt | src/app.js:493-498 | Each frame's array along a path is reached by the route of the frames above it, which is how the grandparent's array is found. |
| Overlay.ViewOf | src/app.js:509-522 | When the id resolves, the breadcrumb is the `" / "` join of the titles on the path `FindNodePath` gives. The current page is that id exactly when the node is a page, and it is shown with its entry's html, or "" when the entry is missing. A section shows the placeholder. An unknown or null id shows the placeholder, with no current page and an empty breadcrumb. A shown page id is the selected id and a page of the tree. |
| Overlay.PathView | src/app.js:510-522 | For the node at the end of a path, the breadcrumb is the path's join. A page node gives that page and its entry's html; any other node gives no page and the placeholder. |
| Overlay.ConsistentViewShowsEntry | src/app.js:516 | In a consistent document, a shown page always has an entry, and the editor shows exactly its html. |
| Overlay.Session.constructor | src/app.js:350-352 | The session starts from the documents index read back from storage (`docsIndex`, src/app.js:84). No entry and no page are current, the editor and the breadcrumb are empty, no save is pending, and nothing has been written. |
| Overlay.Session.EnsureDoc | src/app.js:86-96 | A present document is returned as is, with nothing else changed. An absent one is created as the seed document, is consistent, and is the only change to the index. |
| Overlay.Session.SelectNode | src/app.js:506-523 | The document is ensured and its selection set. The current page, editor content and breadcrumb are the view of the new selection. The pending save is untouched. The invariant is kept when the node is in the tree. |
| Overlay.Session.OpenJournal | src/app.js:354-362 | The entry becomes current and its document is ensured. A present document is the one kept. On a first open a fresh seed document is added, and the other destinations' documents stay as they were. The view is that of the stored selection, and the pending save is untouched. |
| Overlay.Session.CloseJournal | src/app.js:363-368 | The current entry and page become null. Documents, editor content and the pending save are untouched. |
| Overlay.Session.Input | src/app.js:525-527 | An edit replaces any pending save with a single one due 300 ms later. Nothing else changes and nothing is written. |
| Overlay.Session.Tick | src/app.js:527-535 | A due save fires once and is then cleared. When an entry and a page are current and the page's entry exists, it writes the editor content and the time into that entry, counted as one write. Otherwise it writes nothing. A save not yet due changes nothing. |
| Scenarios.IndentThenOutdent | src/app.js:484-499 | Seed, add a section, add a page, indent the page, then outdent it. The outdent takes the `undefined` path, with the hole at position 0 of the root, and the page stays inside the section. |
| Scenarios.OutdentMovesSibling | src/app.js:492-499 | Outdenting the first of two pages in the second root moves the second page to the head of the root. |
| Scenarios.DeleteSectionKeepsPageEntry | src/app.js:466-471 | Deleting the only section empties the tree and clears the selection, but the entry of the page inside it remains. |
| Scenarios.BurstWritesOnce | src/app.js:525-536 | Two edits 200 ms apart give one write, of the second content, at 500 ms. |
| Scenarios.SwitchLosesPendingEdit | src/app.js:506-536 | An edit on page `a` followed by a click on page `b` loses the edit. The timer writes `b`'s own content back to `b`. |
| Scenarios.CloseBeforeFire | src/app.js:363-368 | Closing the overlay before the timer fires means the timer writes nothing. |
| Entries.IndexOf | src/app.js:54 | Gives -1 exactly when no entry has the id. Otherwise gives the first position holding it. |
| Entries.Without | src/app.js:59 | The filtered list keeps every entry with another id and none with this id. |
| Entries.WithoutCounts | src/app.js:59 | The filter keeps every entry with another id exactly as often as the input has it, and no entry with the id. It adds nothing that was not in the input. |
| Entries.WithoutConcat | src/app.js:59 | The filter keeps order: filtering a concatenation gives the filtered parts, concatenated. |
| Entries.UpsertKeepsDistinct | src/app.js:53-56 | On a list with distinct ids, an upsert keeps the ids distinct and makes the new entry the one found under its id. The list grows only when the id was new. |
| Entries.RemoveAfterUpsert | src/app.js:53-60 | Removing an id right after upserting an entry with it leaves what removing it beforehand would have left. |
| Entries.CheckImport | src/app.js:303-304 | A batch that is not an array fails with "Format inattendu". An array is accepted exactly when every element has a non-empty id, place, start and end; otherwise it fails with "Entrée invalide". |
| Entries.EntryList.constructor | src/app.js:50 | The list starts as exactly the entries read back from storage. |
| Entries.EntryList.FindIndex | src/app.js:54 | The loop returns the first position with the id, or -1. |
| Entries.EntryList.Upsert | src/app.js:53-57 | The entry with the same id is replaced in place, or the new entry is put first. |
| Entries.EntryList.Remove | src/app.js:58-61 | The list becomes the entries whose id differs, in order. |
| Entries.EntryList.Import | src/app.js:302-305 | An accepted batch replaces the whole list. A rejected one leaves the list as it was: a batch that is not an array fails with "Format inattendu", and an array with an incomplete element fails with "Entrée invalide". An array is accepted exactly when every element is complete. |

## Left out

- Rendering and the DOM are not modelled: `buildTreePanels`, the overlay markup, the lists, the timeline, the stats, the drawer, and the focus and scroll side effects of `selectNode`. The editor's `innerHTML` is an opaque string.
- Persistence is not modelled: `lsGet`, `lsSet`, `safeParse`, `saveDocs`, `saveEntries` and the theme. `Overlay.Session.Tick` counts a save as one write instead of storing anything.
- `crypto.randomUUID`, `Date.now`, `prompt` and `confirm` are method parameters. Uniqueness of generated ids is assumed only where a contract says so (`Journal.JournalDoc.Add` keeps the invariant when the new id is fresh).
- The event dispatch of `onTreeAction` (button lookup and `data-act`) is not modelled: each action is its own method. The `selectNode` call that follows add and delete is `Overlay.Session.SelectNode`, called separately.
- Journal.JournalDoc.Outdent: when the parent's index is at least the length of the selected node's array, the source removes nothing and inserts `undefined` at the position `HoleAt` gives: right after the grandparent in the grandparent's array, or at the head of the root at depth two. The model reports that position in the outcome `InsertedUndefined` and keeps the tree around the hole, because a node sequence cannot hold `undefined`. The model therefore does not capture what follows in the source. The save stores the hole as `null`. The next redraw of the tree panel fails on `n.id` (src/app.js:410). From then on, opening that destination's journal fails in the same redraw (src/app.js:357), even after a reload. The invariant kept in this case holds of the model's tree, not of the source's.
- Scenarios.IndentThenOutdent: the source's tree at the end is `[undefined, P1, S1]`. The stated `[P1, S1]` is the tree around the hole, whose position the outcome names (position 0 of the root).
- Overlay.Session.EnsureDoc: the documents index is a `map`, so every key without a document counts as absent. In the source it is a plain object. `!docsIndex[entryId]` is false for inherited keys such as `constructor`, `toString` or `__proto__`, and `ensureDoc` then returns that inherited value instead of seeding a document. Entry ids come from imported data and can be such strings. The model does not capture this.
- Journal.JournalDoc.Rename: when a selected page has no `pages` entry, the source throws after retitling the node. The model retitles the node and leaves `pages` as it was, which is the state that throw leaves behind.
- Entries.CheckImport: only the four checked fields are modelled, as strings. A missing field is the empty string, and JSON values of other types are not represented. `JSON.parse` failures, file reading and the alert messages are not modelled.
- Behaviours the code does not have are not stated as guarantees: cascading deletion of a section's pages, flush on page switch, outdent "after the parent", and repair of damaged documents.
- Date formatting, `daysBetween`, search and sorting depend on `Date` parsing, floating point and locale comparison, so they are left out.
- `public/sw.js` (service-worker caching) and `tailwind.config.js` (build configuration) are not part of this model.
