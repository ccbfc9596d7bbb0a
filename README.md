# CustomNotebook page bookkeeping, in Dafny

thonny's `CustomNotebook` is a tabbed container drawn by hand in Tk: a row
of tab headers (`CustomNotebookTab`) over a stack of content panes. The
notebook keeps an ordered list of pages (each pairing a tab with a content
widget) and a reference to the current page. The project models that
bookkeeping:

- adding, inserting, selecting, renaming and forgetting pages;
- closing one tab, the others, or all of them;
- the per-tab state the notebook changes in place: whether the tab is
  drawn as active, the text of its label, and the grid column it sits in.

The model is split into two modules.

- `NotebookPages` (`notebook_pages.dfy`) holds the values:
  - widgets, tab ids, insert positions, pages, errors;
  - the specification functions over sequences of pages: first-match
    search, `index` lookup, Python's `list.insert` position, removal, the
    forget tie-break, and the filter a bulk close amounts to;
  - lemmas about them.
- `CustomNotebook` (`custom_notebook.dfy`) holds the two classes.
  - `Notebook` keeps `pages` and `currentPage` as fields that its methods
    reassign.
  - `Tab` keeps `labelText`, `active` and `column`, which the notebook's
    methods update in place.
  - Each method is proved against the functions of `NotebookPages`, and
    keeps the invariant `Valid()`:
    - every page has its own tab, created by this notebook with the
      notebook's `closable` setting;
    - the tab of page `i` sits in column `i`;
    - every tab the notebook created is on a page or closed, and a closed
      tab (one `forget` removed) stays off the tab row;
    - there is no current page exactly when there are no pages;
    - otherwise the current page is one of the pages.
  - Each method's `modifies` clause names only the tab fields it may
    change, e.g. `Repr`column` for `forget`. So "no tab is activated"
    and "no label changes" are part of its frame.

A widget is modelled by its Tk name. Tk identifies a child of a window by
its path name, so two children of the notebook never share a name. The
`<<NotebookTabChanged>>` event is counted in the ghost field
`tabChangedEvents`.

### Behaviour worth knowing

- `forget` (thonny/custom_notebook.py:119-137):
  - It always moves the current page to the page now at the removed
    index, else to the last page. It does so even when the removed page
    was not current.
  - It changes no tab's active flag: the page it makes current keeps the
    flag it had, so a neighbour that becomes current stays drawn
    inactive. It also emits no event.
  - `ForgetLeavesCurrentTabInactive` shows the consequence: after adding
    `a` and `b`, forgetting `b` and clicking `a`'s tab, the only page is
    current but its tab is inactive. So "the current page's tab is the
    active one" is not an invariant of the code, and the model does not
    claim it.
- `tabs()` (:113-114) returns the content widgets' names, not the tab
  titles.
- `tab(id, text)` (:109-111, :222-223) changes only the label's text. The
  tab's `title` attribute keeps the text it was created with.
- Lookups fail with distinct exceptions:
  - `index` raises `RuntimeError`;
  - `forget`, `select_tab` and `close_tab` raise `ValueError`;
  - an out-of-range index raises `IndexError`.
- `insert` places the page as `list.insert` does. A negative position
  counts from the end, and positions out of range are clamped.

## Model

| member | source | states |
|---|---|---|
| NotebookPages.Find | thonny/custom_notebook.py:103-105 | the search by tab, content or tab id stops at the first matching page; None means no page matches |
| NotebookPages.Lookup | thonny/custom_notebook.py:99-107 | `index`: "end" gives the page count; otherwise the first page whose content is the widget or has the name; RuntimeError, with no page matching, otherwise |
| NotebookPages.InsertionIndex | thonny/custom_notebook.py:51-54 | the index `append`/`list.insert` puts the page at: the end for "end", the position when in range, clamped to 0 or the length otherwise, negative positions counted from the end |
| NotebookPages.InsertAt | thonny/custom_notebook.py:54 | inserting at i keeps earlier pages in place and shifts later ones right by one |
| NotebookPages.RemoveAt | thonny/custom_notebook.py:128 | `del pages[i]` keeps earlier pages in place and shifts later ones left by one |
| NotebookPages.RemoveUndoesInsert | thonny/custom_notebook.py:54 | deleting the page just inserted at i gives back the original list |
| NotebookPages.InsertUndoesRemove | thonny/custom_notebook.py:128 | re-inserting a deleted page at its index gives back the original list |
| NotebookPages.NextCurrent | thonny/custom_notebook.py:130-135 | the page `forget` makes current is None exactly when no page remains, otherwise one of the remaining pages |
| NotebookPages.ForgetTieBreak | thonny/custom_notebook.py:130-135 | in terms of the list before removal: the right neighbour, the left neighbour when the last page went, none when the only page went |
| NotebookPages.TabsOfInsert | thonny/custom_notebook.py:48-54 | after an insert the set of tabs is the old set plus the new tab |
| NotebookPages.TabsOfRemove | thonny/custom_notebook.py:126-128 | with distinct tabs, after a removal the set of tabs is the old set minus the removed tab |
| NotebookPages.Kept | thonny/custom_notebook.py:161-166 | the pages a bulk close keeps are exactly the pages whose tab is the excepted one |
| NotebookPages.KeptIsExceptedPage | thonny/custom_notebook.py:161-166 | with distinct tabs, "close all" keeps nothing, and "close others" keeps just the excepted tab's page (nothing if it is absent) |
| NotebookPages.KeptStep | thonny/custom_notebook.py:162-166 | walking from the back, skipping a page of the excepted tab or deleting any other page extends the filtered suffix by one page |
| NotebookPages.RemoveKeepsTail | thonny/custom_notebook.py:162-166 | deleting a page at or before the reversed iterator's position leaves only excepted pages after it, so the iteration skips no page |
| NotebookPages.RemoveKeepsOnlyOld | thonny/custom_notebook.py:162-166 | deleting a page adds none: pages drawn from the original list stay drawn from it |
| NotebookPages.ClosingDone | thonny/custom_notebook.py:161-166 | once the reversed walk has passed the first page, the pages left are old pages carrying the excepted tab: at most one, none for "close all", exactly the kept pages when contents were distinct |
| NotebookPages.AtMostOnePageOf | thonny/custom_notebook.py:161-166 | with distinct tabs, at most one page can carry the excepted tab |
| NotebookPages.NamesOf | thonny/custom_notebook.py:113-114 | `tabs()` lists the name of every page's content, in page order |
| NotebookPages.ContentsOf | thonny/custom_notebook.py:116-117 | `winfo_children()` lists every page's content, in page order |
| NotebookPages.LookupReportedName | thonny/custom_notebook.py:99-114 | with distinct contents, `index` of a name `tabs()` reports at i is i (or the page count when the name is "end") |
| NotebookPages.LookupReportedChild | thonny/custom_notebook.py:99-117 | with distinct contents, `index` of the widget `winfo_children()` reports at i is i |
| CustomNotebook.OwnedAfterInsert | thonny/custom_notebook.py:48-54 | inserting a page with a new tab of this notebook keeps every page's tab distinct and owned, and every created tab on a page or closed |
| CustomNotebook.OwnedAfterRemove | thonny/custom_notebook.py:126-128 | deleting a page moves its tab to the closed tabs and keeps the ownership of the rest |
| CustomNotebook.Notebook.constructor | thonny/custom_notebook.py:28-43 | a new notebook has no pages, no current page, no tabs, no closed tabs and the given `closable`, and satisfies the invariant |
| CustomNotebook.Notebook.Add | thonny/custom_notebook.py:45-46 | appends one page with the child and a fresh tab titled `text` whose label shows `text`, makes it current and active, deactivates the previous current tab, emits one event |
| CustomNotebook.Notebook.Insert | thonny/custom_notebook.py:48-57 | the page with a fresh tab (title, label text `text`, the notebook's `closable`) goes in at `InsertionIndex`, other pages shift, the new page becomes current with its tab active, the old current tab is deactivated, no other tab changes, one event; the invariant is kept |
| CustomNotebook.Notebook.Link | thonny/custom_notebook.py:49-54 | creates an inactive tab titled `text` and inserts the page at `InsertionIndex`, current page unchanged |
| CustomNotebook.Notebook.ShowNew | thonny/custom_notebook.py:56-57 | after relaying the tabs, selecting the new tab switches to its page |
| CustomNotebook.Notebook.RearrangeTabs | thonny/custom_notebook.py:59-61 | each page's tab is gridded in the column equal to its index; tabs of no page keep their column, so closed tabs stay off the row; nothing else changes |
| CustomNotebook.Notebook.SelectedName | thonny/custom_notebook.py:67-71 | `select()` with no argument is the current content's name, None when there is no current page |
| CustomNotebook.Notebook.Select | thonny/custom_notebook.py:67-73 | RuntimeError and no change for an unknown id, IndexError and no change for "end", otherwise the looked-up page becomes selected |
| CustomNotebook.Notebook.SelectByIndex | thonny/custom_notebook.py:75-89 | IndexError and no change out of range; selecting the current page changes nothing and emits no event; otherwise the new tab is activated, the previous one deactivated, no other tab changes, exactly one event; the invariant is kept |
| CustomNotebook.Notebook.SelectTab | thonny/custom_notebook.py:91-97 | selects the first page with the tab; ValueError and no change when no page has it |
| CustomNotebook.Notebook.Index | thonny/custom_notebook.py:99-107 | returns exactly `Lookup(pages, id)` |
| CustomNotebook.Notebook.SetTabText | thonny/custom_notebook.py:109-111 | RuntimeError or IndexError as for `index`; otherwise the resolved page's label shows `text` and no other label changes |
| CustomNotebook.Notebook.Tabs | thonny/custom_notebook.py:113-114 | one content name per page, in page order |
| CustomNotebook.Notebook.Children | thonny/custom_notebook.py:116-117 | one content widget per page, in page order |
| CustomNotebook.Notebook.Forget | thonny/custom_notebook.py:119-137 | succeeds exactly when some page holds the child, otherwise ValueError and no change; removes the first such page, ungrids its tab, makes `NextCurrent` current; the removed tab joins the closed tabs, which the invariant keeps off the tab row; touches no active flag or label, emits no event; the invariant is kept |
| CustomNotebook.Notebook.RemovePage | thonny/custom_notebook.py:126-137 | deletes the page at i, ungrids its tab and adds it to the closed tabs, makes `NextCurrent` current and relays the remaining tabs |
| CustomNotebook.Notebook.Unlink | thonny/custom_notebook.py:126-135 | ungrids the removed tab and adds it to the closed tabs, deletes the page and picks `NextCurrent`; closed tabs stay off the tab row |
| CustomNotebook.Notebook.GetChildByIndex | thonny/custom_notebook.py:139-140 | the content at the index, IndexError exactly when out of range; with distinct contents, `index` of the result gives the index back |
| CustomNotebook.Notebook.GetCurrentChild | thonny/custom_notebook.py:142-145 | the current content; under the invariant None exactly when there are no pages |
| CustomNotebook.Notebook.CloseTab | thonny/custom_notebook.py:153-159 | succeeds exactly when some page has the tab, otherwise ValueError and no change; removes the first page with that page's content (at or before it), which is that page itself when contents are distinct; makes `NextCurrent` current and closes the removed page's tab; no event |
| CustomNotebook.Notebook.CloseTabAt | thonny/custom_notebook.py:153-159 | closing the tab of page k removes exactly the first page whose content is page k's content, which is at or before k, and page k itself when the contents are distinct |
| CustomNotebook.Notebook.CloseTabs | thonny/custom_notebook.py:161-166 | afterwards every remaining page is one of the old pages and has the excepted tab, and at most one page remains; "close all" leaves no page and no current page; with distinct contents the result is `Kept(old pages, except)`; no flag changes, no event |
| CustomNotebook.Notebook.CloseStep | thonny/custom_notebook.py:163-166 | one pass of the loop: skipping a page of the excepted tab or closing any other tab moves the walk one position towards the front, keeping its state and the invariant; no event |
| CustomNotebook.Tab.constructor | thonny/custom_notebook.py:173-182 | a new tab belongs to its notebook, has the given title and closable flag, shows the title, is inactive and not gridded |
| CustomNotebook.Tab.SetTitle | thonny/custom_notebook.py:222-223 | the label shows the text; nothing else of the tab changes |
| CustomNotebook.Tab.UpdateState | thonny/custom_notebook.py:252-274 | the tab is drawn active exactly when asked to be; nothing else of the tab changes |
| CustomNotebook.Tab.OnClick | thonny/custom_notebook.py:240-241 | clicking a tab selects the first page that has it; ValueError and no change if none |
| CustomNotebook.Tab.Close | thonny/custom_notebook.py:231-232 | "Close" succeeds exactly when a page has this tab, otherwise ValueError and no change; removes the first page with that page's content, makes `NextCurrent` current and closes the removed tab; with distinct contents exactly its page goes; no event |
| CustomNotebook.Tab.CloseOthers | thonny/custom_notebook.py:237-238 | "Close others" leaves only pages of this tab; at most one page remains, and it is one of the old pages; with distinct contents exactly its page remains (none if it was absent); no event |
| CustomNotebook.Tab.CloseAll | thonny/custom_notebook.py:234-235 | "Close all" leaves no page and no current page; no event |
| CustomNotebook.ForgetLeavesCurrentTabInactive | thonny/custom_notebook.py:119-137 | add a, add b, forget b, click a's tab: one page, current, and its tab drawn inactive |

## Left out

- Tk geometry and painting are not modelled: colours and platform constants, padding, `grid_propagate`, `tkraise`, and gridding or ungridding the content panes. Of the layout, only the tab's grid column is kept.
- `update_state` sets colours; the model keeps only the active flag those colours stand for.
- Event bindings, the context-menu popup (`_right_btn_press`), the close button's hover images (`on_button_enter`/`on_button_leave`), and translated menu labels (`tr`) are not modelled. They are UI wiring, with no state the notebook reads.
- `on_button_click` and `_middle_btn_press` call the same `close_tab(self)` as `_close_tab`, so `Tab.Close` stands for all three.
- `enable_traversal` is not modelled; it is a no-op.
- `focus_set` is not modelled; it only moves keyboard focus.
- `TextFrame` and the demo under `__main__` are not part of the notebook.
- `event_generate` is modelled as a ghost counter; event delivery is not modelled.
- CustomNotebook.Notebook.SelectByIndex: the index is a natural number. Python's negative indexing of `self.pages` is not modelled, because `select` only passes indices from `index`, which are never negative.
- CustomNotebook.Notebook.GetChildByIndex: the index is a natural number; Python's negative indexing of `self.pages` is not modelled.
- CustomNotebook.Notebook.Insert: positions are "end" or an int; other values, on which `list.insert` raises TypeError, are not modelled.
- CustomNotebook.Notebook.CloseTabs: the exact remaining pages are stated only when the contents are distinct. `close_tab` forgets by content, so with a duplicate content it removes an earlier page than the one whose tab it was given. In general the model states that only old pages with the excepted tab remain, and at most one.
- CustomNotebook.Tab.CloseOthers: as for `CloseTabs`, which it calls, the surviving page is named only for distinct contents; in general at most one old page with this tab survives.
- CustomNotebook.Notebook.CloseTab: the removed page is stated to be the first page with the same content. Which page that is, is stated only for distinct contents.
