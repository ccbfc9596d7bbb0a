/** thonny's CustomNotebook: a row of tabs over stacked content panes.

    A Notebook keeps its pages in a list and points at the current page;
    each Tab keeps the state the notebook updates in place: whether it is
    drawn as active, the text of its label and the grid column it sits in.
    Layout and painting are not modelled beyond that column and flag. The
    `<<NotebookTabChanged>>` event is counted in a ghost field.
 */
module CustomNotebook {
  import opened NotebookPages

  class Notebook {
    const closable: bool
    var pages: seq<Page<Tab>>
    var currentPage: Option<Page<Tab>>
    /** How many `<<NotebookTabChanged>>` events have been emitted. */
    ghost var tabChangedEvents: nat
    /** Every tab this notebook has created, including closed ones. */
    ghost var Repr: set<Tab>
    /** The tabs of the pages `forget` has removed. */
    ghost var Closed: set<Tab>

    ghost function CurrentTab(): Option<Tab>
      reads this
    {
      match currentPage
      case None => None
      case Some(p) => Some(p.tab)
    }

    /** Every page has its own tab, created by this notebook; every tab
        the notebook created is either on a page or closed, never both. */
    ghost predicate Owned()
      reads this
    {
      OwnedBy(pages, Repr, Closed, this, closable)
    }

    /** A closed tab stays off the tab row. */
    ghost predicate OffRow()
      reads this, Repr
    {
      forall t :: t in Closed && t in Repr ==> t.column == None
    }

    /** Every page's tab sits in the column equal to the page's index. */
    ghost predicate Gridded()
      reads this, Repr
    {
      forall i :: 0 <= i < |pages| && pages[i].tab in Repr ==> pages[i].tab.column == Some(i)
    }

    /** The tab row as `_rearrange_tabs` leaves it. */
    ghost predicate Laid()
      reads this, Repr
    {
      Owned() && Gridded() && OffRow()
    }

    /** `t` is the tab of one of the pages. */
    ghost predicate Placed(t: Tab)
      reads this
    {
      exists i :: 0 <= i < |pages| && pages[i].tab == t
    }

    ghost predicate CurrentInPages()
      reads this
    {
      currentPage.Some? ==> currentPage.value in pages
    }

    /** The notebook invariant: the tab row is laid out, and there is no
        current page exactly when there are no pages, otherwise the current
        page is one of the pages. */
    ghost predicate Valid()
      reads this, Repr
    {
      Laid() && CurrentOk(pages, currentPage)
    }

    /** The effect of a successful `select_by_index(index)`: the page at
        `index` is current. If it already was, nothing changed and no
        event was emitted; otherwise its tab was activated, the previous
        current tab deactivated, and exactly one event emitted. */
    twostate predicate Selected(index: nat)
      reads this, Repr
    {
      Repr == old(Repr) && Closed == old(Closed) && pages == old(pages) &&
      index < |pages| && pages[index].tab in Repr &&
      currentPage == Some(pages[index]) &&
      if old(currentPage) == currentPage then
        tabChangedEvents == old(tabChangedEvents) &&
        forall t :: t in old(Repr) ==> t.active == old(t.active)
      else
        tabChangedEvents == old(tabChangedEvents) + 1 &&
        pages[index].tab.active &&
        (old(currentPage).Some? && old(currentPage).value.tab in old(Repr) ==>
          !old(currentPage).value.tab.active) &&
        forall t :: t in old(Repr) && t != pages[index].tab && Some(t) != old(CurrentTab()) ==>
          t.active == old(t.active)
    }

    constructor (closable: bool)
      ensures Valid()
      ensures this.closable == closable
      ensures pages == [] && currentPage == None && tabChangedEvents == 0
      ensures Repr == {} && Closed == {}
    {
      this.closable := closable;
      pages := [];
      currentPage := None;
      tabChangedEvents := 0;
      Repr := {};
      Closed := {};
    }

    /** `add(child, text)`: `insert("end", child, text)`. */
    method Add(child: Widget, text: string)
      requires Valid()
      modifies this, Repr`column, Repr`active
      ensures Valid()
      ensures |pages| == |old(pages)| + 1 && pages[..|old(pages)|] == old(pages)
      ensures pages[|old(pages)|].content == child && fresh(pages[|old(pages)|].tab)
      ensures pages[|old(pages)|].tab.title == text && pages[|old(pages)|].tab.labelText == text
      ensures pages[|old(pages)|].tab.active
      ensures currentPage == Some(pages[|old(pages)|])
      ensures tabChangedEvents == old(tabChangedEvents) + 1
      ensures Repr == old(Repr) + {pages[|old(pages)|].tab} && Closed == old(Closed)
      ensures old(currentPage).Some? ==> !old(currentPage).value.tab.active
      ensures forall t :: t in old(Repr) && Some(t) != old(CurrentTab()) ==> t.active == old(t.active)
    {
      Insert(End, child, text);
    }

    /** `insert(pos, child, text)`: a new tab titled `text` and the child
        go in as one page where `list.insert` puts them, the tabs are laid
        out again, and the new page is selected. */
    method Insert(pos: Position, child: Widget, text: string)
      requires Valid()
      modifies this, Repr`column, Repr`active
      ensures Valid()
      ensures var k := InsertionIndex(pos, |old(pages)|);
        k < |pages| &&
        pages == InsertAt(old(pages), k, Page(pages[k].tab, child)) &&
        fresh(pages[k].tab) &&
        pages[k].tab.title == text && pages[k].tab.labelText == text &&
        pages[k].tab.closable == closable &&
        pages[k].tab.active &&
        currentPage == Some(pages[k]) &&
        Repr == old(Repr) + {pages[k].tab} && Closed == old(Closed)
      ensures old(currentPage).Some? ==> !old(currentPage).value.tab.active
      ensures tabChangedEvents == old(tabChangedEvents) + 1
      ensures forall t :: t in old(Repr) && Some(t) != old(CurrentTab()) ==> t.active == old(t.active)
    {
      var k := InsertionIndex(pos, |pages|);
      var tab := Link(pos, child, text);
      ShowNew(tab, k);
    }

    /** The second half of `insert`: lay the tabs out again and select
        the new page's tab, which shows that page. */
    method ShowNew(tab: Tab, k: nat)
      requires Owned() && OffRow() && CurrentInPages()
      requires k < |pages| && pages[k].tab == tab
      requires currentPage.Some? ==> currentPage.value.tab != tab
      modifies this, Repr`column, Repr`active
      ensures Valid() && Selected(k)
      ensures currentPage != old(currentPage)
    {
      FindOwnTab(pages, k);
      RearrangeTabs();
      var selected := SelectTab(tab);
    }

    /** The first half of `insert`: create the tab and put the new page
        into the list where `list.insert` (or `append` for "end") puts it. */
    method Link(pos: Position, child: Widget, text: string) returns (tab: Tab)
      requires Owned() && OffRow() && CurrentOk(pages, currentPage)
      modifies this
      ensures Owned() && OffRow() && CurrentInPages()
      ensures var k := InsertionIndex(pos, |old(pages)|);
        pages == InsertAt(old(pages), k, Page(tab, child))
      ensures fresh(tab) && tab !in old(Repr) && Repr == old(Repr) + {tab} && Closed == old(Closed)
      ensures currentPage.Some? ==> currentPage.value.tab != tab
      ensures tab.title == text && tab.labelText == text && tab.closable == closable && !tab.active
      ensures currentPage == old(currentPage) && tabChangedEvents == old(tabChangedEvents)
    {
      tab := new Tab(this, text, closable);
      var page := Page(tab, child);
      var k := InsertionIndex(pos, |pages|);
      if pos.End? {
        pages := pages + [page];
      } else {
        pages := pages[..k] + [page] + pages[k..];
      }
      assert pages == InsertAt(old(pages), k, page);
      OwnedAfterInsert(old(pages), k, page, Repr, Closed, this, closable);
      Repr := Repr + {tab};
    }

    /** `_rearrange_tabs`: grid every page's tab in the column equal to
        its index. */
    method RearrangeTabs()
      requires Owned() && OffRow()
      modifies Repr`column
      ensures Gridded() && OffRow()
      ensures forall t :: t in Repr && !Placed(t) ==> t.column == old(t.column)
    {
      var i := 0;
      while i < |pages|
        invariant 0 <= i <= |pages|
        invariant forall j :: 0 <= j < i ==> pages[j].tab.column == Some(j)
        invariant OffRow()
        invariant forall t :: t in Repr && !Placed(t) ==> t.column == old(t.column)
      {
        var tab := pages[i].tab;
        tab.column := Some(i);
        i := i + 1;
      }
    }

    /** `select()` with no argument: the name of the current content. */
    function SelectedName(): (r: Option<string>)
      reads this
      ensures r.None? <==> currentPage.None?
      ensures r.Some? ==> r.value == currentPage.value.content.name
    {
      match currentPage
      case None => None
      case Some(p) => Some(p.content.name)
    }

    /** `select(tab_id)`: `select_by_index(index(tab_id))`. The sentinel
        "end" resolves to the number of pages, which is out of range. */
    method Select(id: TabId) returns (r: Outcome)
      requires Valid()
      modifies this, Repr`active
      ensures Valid()
      ensures Lookup(old(pages), id).Err? ==>
        r == Fail(RuntimeError) && unchanged(this) && unchanged(Repr)
      ensures Lookup(old(pages), id) == Ok(|old(pages)|) ==>
        r == Fail(IndexError) && unchanged(this) && unchanged(Repr)
      ensures Lookup(old(pages), id).Ok? && Lookup(old(pages), id).value < |old(pages)| ==>
        r == Pass && Selected(Lookup(old(pages), id).value)
    {
      var k := Index(id);
      if k.Err? {
        return Fail(k.error);
      }
      r := SelectByIndex(k.value);
    }

    /** `select_by_index(index)`: switch to the page at `index`, a no-op
        when it is already current, IndexError when out of range. */
    method SelectByIndex(index: nat) returns (r: Outcome)
      requires Laid() && CurrentInPages()
      modifies this, Repr`active
      ensures Laid() && CurrentInPages()
      ensures r.Pass? <==> index < |old(pages)|
      ensures r.Pass? ==> Selected(index)
      ensures r.Fail? ==> r.error == IndexError && unchanged(this) && unchanged(Repr)
      ensures old(CurrentOk(pages, currentPage)) ==> Valid()
    {
      if index >= |pages| {
        return Fail(IndexError);
      }
      var newPage := pages[index];
      if Some(newPage) == currentPage {
        return Pass;
      }
      if currentPage.Some? {
        ghost var j :| 0 <= j < |pages| && pages[j] == currentPage.value;
        assert j != index;
      }
      newPage.tab.UpdateState(true);
      if currentPage.Some? {
        currentPage.value.tab.UpdateState(false);
      }
      currentPage := Some(newPage);
      tabChangedEvents := tabChangedEvents + 1;
      r := Pass;
    }

    /** `select_tab(tab)`: select the first page whose tab is `tab`;
        ValueError when there is none. */
    method SelectTab(tab: Tab) returns (r: Outcome)
      requires Laid() && CurrentInPages()
      modifies this, Repr`active
      ensures Laid() && CurrentInPages()
      ensures r.Pass? <==> Find(old(pages), ByTab(tab)).Some?
      ensures r.Pass? ==> Selected(Find(old(pages), ByTab(tab)).value)
      ensures r.Fail? ==> r.error == ValueError && unchanged(this) && unchanged(Repr)
      ensures old(CurrentOk(pages, currentPage)) ==> Valid()
    {
      var i := 0;
      while i < |pages|
        invariant 0 <= i <= |pages|
        invariant forall j :: 0 <= j < i ==> pages[j].tab != tab
      {
        if pages[i].tab == tab {
          r := SelectByIndex(i);
          return;
        }
        i := i + 1;
      }
      r := Fail(ValueError);
    }

    /** `index(tab_id)`: the number of pages for "end", else the position
        of the first page whose content is `tab_id` or is named `tab_id`;
        RuntimeError when there is none. */
    method Index(id: TabId) returns (r: Result<nat>)
      ensures r == Lookup(pages, id)
    {
      if id == EndSentinel {
        return Ok(|pages|);
      }
      var i := 0;
      while i < |pages|
        invariant 0 <= i <= |pages|
        invariant forall j :: 0 <= j < i ==> !Hit(pages[j], ById(id))
      {
        var page := pages[i];
        if (id.Child? && page.content == id.widget) || (id.Name? && page.content.name == id.text) {
          return Ok(i);
        }
        i := i + 1;
      }
      r := Err(RuntimeError);
    }

    /** `tab(tab_id, text)`: set the label text of the page `index`
        resolves to. The tab's `title` stays what it was created with. */
    method SetTabText(id: TabId, text: string) returns (r: Outcome)
      requires Valid()
      modifies Repr`labelText
      ensures Valid()
      ensures Lookup(pages, id).Err? ==> r == Fail(RuntimeError) && unchanged(Repr)
      ensures Lookup(pages, id) == Ok(|pages|) ==> r == Fail(IndexError) && unchanged(Repr)
      ensures Lookup(pages, id).Ok? && Lookup(pages, id).value < |pages| ==>
        r == Pass && pages[Lookup(pages, id).value].tab.labelText == text &&
        forall t :: t in Repr && t != pages[Lookup(pages, id).value].tab ==> t.labelText == old(t.labelText)
    {
      var k := Index(id);
      if k.Err? {
        return Fail(k.error);
      }
      if k.value >= |pages| {
        return Fail(IndexError);
      }
      pages[k.value].tab.SetTitle(text);
      r := Pass;
    }

    /** `tabs()`: the names of the contents, in page order. */
    function Tabs(): (r: seq<string>)
      reads this
      ensures |r| == |pages|
      ensures forall i :: 0 <= i < |pages| ==> r[i] == pages[i].content.name
    {
      NamesOf(pages)
    }

    /** `winfo_children()`: the contents, in page order. */
    function Children(): (r: seq<Widget>)
      reads this
      ensures |r| == |pages|
      ensures forall i :: 0 <= i < |pages| ==> r[i] == pages[i].content
    {
      ContentsOf(pages)
    }

    /** `forget(child)`: remove the first page whose content is `child`,
        then make current the page now at the removed index, else the
        last page, else none. This happens whether or not the removed page
        was current; no tab is activated or deactivated and no event is
        emitted. ValueError, and no change, when no page holds `child`. */
    method Forget(child: Widget) returns (r: Outcome)
      requires Valid()
      modifies this, Repr`column
      ensures Valid()
      ensures r.Pass? <==> Find(old(pages), ByContent(child)).Some?
      ensures r.Fail? ==> r.error == ValueError && unchanged(this) && unchanged(Repr)
      ensures r.Pass? ==>
        var i := Find(old(pages), ByContent(child)).value;
        pages == RemoveAt(old(pages), i) &&
        currentPage == NextCurrent(pages, i) &&
        Closed == old(Closed) + {old(pages)[i].tab} &&
        old(pages)[i].tab.column == None
      ensures Repr == old(Repr)
      ensures tabChangedEvents == old(tabChangedEvents)
    {
      var i := 0;
      while i < |pages| && pages[i].content != child
        invariant 0 <= i <= |pages|
        invariant forall j :: 0 <= j < i ==> pages[j].content != child
      {
        i := i + 1;
      }
      if i == |pages| {
        return Fail(ValueError);
      }
      assert Find(pages, ByContent(child)) == Some(i);
      RemovePage(i);
      r := Pass;
    }

    /** What `forget` does once it has found the page at index `i`:
        ungrid its tab, delete the page and pick the new current page,
        then lay the tabs out again. */
    method RemovePage(i: nat)
      requires Valid() && i < |pages|
      modifies this, Repr`column
      ensures Valid()
      ensures pages == RemoveAt(old(pages), i)
      ensures currentPage == NextCurrent(pages, i)
      ensures Closed == old(Closed) + {old(pages)[i].tab} && old(pages)[i].tab.column == None
      ensures Repr == old(Repr) && tabChangedEvents == old(tabChangedEvents)
    {
      Unlink(i);
      RearrangeTabs();
    }

    /** The first half of `RemovePage`: the tab leaves the grid and the
        page leaves the list; the current page moves to the right
        neighbour, else to the last page, else to none. */
    method Unlink(i: nat)
      requires Owned() && OffRow() && CurrentOk(pages, currentPage) && i < |pages|
      modifies this, pages[i].tab`column
      ensures Owned() && OffRow() && CurrentOk(pages, currentPage)
      ensures pages == RemoveAt(old(pages), i)
      ensures currentPage == NextCurrent(pages, i)
      ensures old(pages)[i].tab.column == None
      ensures Closed == old(Closed) + {old(pages)[i].tab}
      ensures Repr == old(Repr) && tabChangedEvents == old(tabChangedEvents)
    {
      var removed := pages[i].tab;
      removed.column := None;
      OwnedAfterRemove(pages, i, Repr, Closed, this, closable);
      Closed := Closed + {removed};
      pages := pages[..i] + pages[i + 1..];
      ghost var rest := pages;
      assert rest == RemoveAt(old(pages), i);
      if |pages| == 0 {
        currentPage := None;
      } else if |pages| > i {
        currentPage := Some(pages[i]);
      } else {
        currentPage := Some(pages[|pages| - 1]);
      }
      assert currentPage == NextCurrent(rest, i);
    }

    /** `get_child_by_index(index)`: the content of the page at `index`;
        IndexError when out of range. */
    function GetChildByIndex(index: nat): (r: Result<Widget>)
      reads this
      ensures r.Ok? <==> index < |pages|
      ensures r.Ok? ==> r.value == pages[index].content
      ensures r.Err? ==> r.error == IndexError
      ensures r.Ok? && ContentsDistinct(pages) ==> Lookup(pages, Child(r.value)) == Ok(index)
    {
      if index < |pages| then
        LookupReportedChild(pages, index);
        Ok(pages[index].content)
      else
        Err(IndexError)
    }

    /** `get_current_child()`: the current content, if any. Under the
        invariant there is none exactly when there are no pages. */
    function GetCurrentChild(): (r: Option<Widget>)
      reads this
      ensures r.None? <==> currentPage.None?
      ensures r.Some? ==> r.value == currentPage.value.content
      ensures CurrentOk(pages, currentPage) ==> (r.None? <==> pages == [])
    {
      match currentPage
      case None => None
      case Some(p) => Some(p.content)
    }

    /** `close_tab(tab)`: forget the content of the first page whose tab
        is `tab`; ValueError when there is none. `forget` searches by
        content, so when the contents are distinct it is that very page
        that goes. */
    method CloseTab(tab: Tab) returns (r: Outcome)
      requires Valid()
      modifies this, Repr`column
      ensures Valid()
      ensures r.Pass? <==> Find(old(pages), ByTab(tab)).Some?
      ensures r.Fail? ==> r.error == ValueError && unchanged(this) && unchanged(Repr)
      ensures r.Pass? ==>
        var j := Find(old(pages), ByTab(tab)).value;
        var i := Find(old(pages), ByContent(old(pages)[j].content));
        i.Some? && i.value <= j &&
        pages == RemoveAt(old(pages), i.value) &&
        currentPage == NextCurrent(pages, i.value) &&
        Closed == old(Closed) + {old(pages)[i.value].tab}
      ensures r.Pass? && ContentsDistinct(old(pages)) ==>
        pages == RemoveAt(old(pages), Find(old(pages), ByTab(tab)).value)
      ensures Repr == old(Repr)
      ensures tabChangedEvents == old(tabChangedEvents)
    {
      var i := 0;
      while i < |pages|
        invariant 0 <= i <= |pages|
        invariant forall j :: 0 <= j < i ==> pages[j].tab != tab
      {
        if pages[i].tab == tab {
          var page := pages[i];
          assert Hit(page, ByContent(page.content));
          r := Forget(page.content);
          if ContentsDistinct(old(pages)) {
            FindOwnContent(old(pages), i);
          }
          return;
        }
        i := i + 1;
      }
      r := Fail(ValueError);
    }

    /** `close_tab(pages[k].tab)` as `close_tabs` issues it: the page
        removed is the first one with the same content, so at or before
        `k`, and it is the page at `k` itself when the contents are
        distinct. */
    method CloseTabAt(k: nat) returns (ghost i: nat)
      requires Valid() && k < |pages|
      modifies this, Repr`column
      ensures Valid()
      ensures Find(old(pages), ByContent(old(pages)[k].content)) == Some(i)
      ensures i <= k && pages == RemoveAt(old(pages), i)
      ensures Closed == old(Closed) + {old(pages)[i].tab}
      ensures ContentsDistinct(old(pages)) ==> i == k && ContentsDistinct(pages)
      ensures Repr == old(Repr) && tabChangedEvents == old(tabChangedEvents)
    {
      ghost var before := pages;
      FindOwnTab(pages, k);
      var _ := CloseTab(pages[k].tab);
      i := Find(before, ByContent(before[k].content)).value;
      if ContentsDistinct(before) {
        FindOwnContent(before, k);
        RemoveKeepsDistinct(before, k);
      }
    }

    /** `close_tabs(except_tab)`: walk the pages from last to first, as
        `reversed(self.pages)` does while `close_tab` deletes from that
        same list, and close every page whose tab is not `except`.
        Each deletion happens at or below the iterator's position, so no
        page is skipped: afterwards only a page of `except` can remain,
        and "close all" leaves nothing. With distinct contents exactly the
        page of `except` remains, when it was present. */
    method CloseTabs(except: Option<Tab>)
      requires Valid()
      modifies this, Repr`column
      ensures Valid()
      ensures forall p :: p in pages ==> Some(p.tab) == except && p in old(pages)
      ensures |pages| <= 1
      ensures except.None? ==> pages == [] && currentPage == None
      ensures ContentsDistinct(old(pages)) ==> pages == Kept(old(pages), except)
      ensures Repr == old(Repr)
      ensures tabChangedEvents == old(tabChangedEvents)
    {
      ghost var orig := pages;
      var k := |pages| - 1;
      while 0 <= k < |pages|
        invariant Valid() && ClosingFrom(pages, k, except, orig)
        invariant Repr == old(Repr)
        invariant tabChangedEvents == old(tabChangedEvents)
        decreases k + 1
      {
        CloseStep(k, except, orig);
        k := k - 1;
      }
      ClosingDone(pages, except, orig);
    }

    /** One pass of the loop in `close_tabs`: skip the page at `k` when its
        tab is `except`, otherwise close that tab. */
    method CloseStep(k: nat, except: Option<Tab>, ghost orig: seq<Page<Tab>>)
      requires Valid() && k < |pages| && ClosingFrom(pages, k, except, orig)
      modifies this, Repr`column
      ensures Valid() && ClosingFrom(pages, k - 1, except, orig)
      ensures Repr == old(Repr) && tabChangedEvents == old(tabChangedEvents)
    {
      var page := pages[k];
      ghost var before := pages;
      if ContentsDistinct(orig) {
        KeptStep(orig, k, except, before);
      }
      if Some(page.tab) != except {
        ghost var i := CloseTabAt(k);
        RemoveKeepsTail(before, i, k, except);
        RemoveKeepsOnlyOld(before, i, orig);
      }
    }
  }

  /** `s` are the pages of notebook `nb`, whose created tabs are `repr`
      and whose closed tabs are `closed`: every page has its own tab,
      created by `nb` with `nb`'s closable setting; every created tab is
      either on a page or closed, never both. */
  ghost predicate OwnedBy(s: seq<Page<Tab>>, repr: set<Tab>, closed: set<Tab>, nb: Notebook, closable: bool) {
    TabsDistinct(s) &&
    closed <= repr && repr <= closed + TabsOf(s) &&
    forall i :: 0 <= i < |s| ==>
      s[i].tab in repr &&
      s[i].tab !in closed &&
      s[i].tab.notebook == nb &&
      s[i].tab.closable == closable
  }

  /** Removing a page closes its tab and keeps the ownership. */
  lemma OwnedAfterRemove(s: seq<Page<Tab>>, i: nat, repr: set<Tab>, closed: set<Tab>, nb: Notebook, closable: bool)
    requires i < |s| && OwnedBy(s, repr, closed, nb, closable)
    ensures OwnedBy(RemoveAt(s, i), repr, closed + {s[i].tab}, nb, closable)
  {
    RemoveKeepsDistinct(s, i);
    TabsOfRemove(s, i);
  }

  /** Inserting a page with a new tab of `nb` adds that tab and keeps the
      ownership. */
  lemma OwnedAfterInsert(s: seq<Page<Tab>>, k: nat, p: Page<Tab>, repr: set<Tab>, closed: set<Tab>, nb: Notebook, closable: bool)
    requires k <= |s| && OwnedBy(s, repr, closed, nb, closable)
    requires p.tab !in repr && p.tab.notebook == nb && p.tab.closable == closable
    ensures OwnedBy(InsertAt(s, k, p), repr + {p.tab}, closed, nb, closable)
  {
    TabsOfInsert(s, k, p);
    var r := InsertAt(s, k, p);
    forall a, b | 0 <= a < b < |r| ensures r[a].tab != r[b].tab {
      if a < k && b > k {
        assert r[b] == s[b - 1];
      }
    }
  }

  /** CustomNotebookTab: the header of one page. */
  class Tab {
    const notebook: Notebook
    /** The title given at creation; `tab(...)` never updates it. */
    const title: string
    const closable: bool
    /** The text the label shows. */
    var labelText: string
    /** Drawn as the active tab (`update_state`). */
    var active: bool
    /** The grid column in the tab row, None while not gridded. */
    var column: Option<nat>

    constructor (notebook: Notebook, title: string, closable: bool)
      ensures this.notebook == notebook && this.title == title && this.closable == closable
      ensures labelText == title && !active && column == None
    {
      this.notebook := notebook;
      this.title := title;
      this.closable := closable;
      labelText := title;
      active := false;
      column := None;
    }

    /** `set_title(text)`: changes the label's text only. */
    method SetTitle(text: string)
      modifies this`labelText
      ensures labelText == text
    {
      labelText := text;
    }

    /** `update_state(active)`: the colours it sets stand for this flag. */
    method UpdateState(active: bool)
      modifies this`active
      ensures this.active == active
    {
      this.active := active;
    }

    /** `on_click`: ask the notebook to select this tab. */
    method OnClick() returns (r: Outcome)
      requires notebook.Valid()
      modifies notebook, notebook.Repr`active
      ensures notebook.Valid()
      ensures r.Pass? <==> Find(old(notebook.pages), ByTab(this)).Some?
      ensures r.Pass? ==> notebook.Selected(Find(old(notebook.pages), ByTab(this)).value)
      ensures r.Fail? ==> r.error == ValueError && unchanged(notebook) && unchanged(notebook.Repr)
    {
      r := notebook.SelectTab(this);
    }

    /** `_close_tab` (the menu's "Close"; the close button and the middle
        button call the same): ask the notebook to close this tab. */
    method Close() returns (r: Outcome)
      requires notebook.Valid()
      modifies notebook, notebook.Repr`column
      ensures notebook.Valid()
      ensures r.Pass? <==> Find(old(notebook.pages), ByTab(this)).Some?
      ensures r.Fail? ==> r.error == ValueError && unchanged(notebook) && unchanged(notebook.Repr)
      ensures r.Pass? ==>
        var j := Find(old(notebook.pages), ByTab(this)).value;
        var i := Find(old(notebook.pages), ByContent(old(notebook.pages)[j].content));
        i.Some? && i.value <= j &&
        notebook.pages == RemoveAt(old(notebook.pages), i.value) &&
        notebook.currentPage == NextCurrent(notebook.pages, i.value) &&
        notebook.Closed == old(notebook.Closed) + {old(notebook.pages)[i.value].tab}
      ensures r.Pass? && ContentsDistinct(old(notebook.pages)) ==>
        notebook.pages == RemoveAt(old(notebook.pages), Find(old(notebook.pages), ByTab(this)).value)
      ensures notebook.Repr == old(notebook.Repr)
      ensures notebook.tabChangedEvents == old(notebook.tabChangedEvents)
    {
      r := notebook.CloseTab(this);
    }

    /** `_close_other_tabs` (the menu's "Close others"). */
    method CloseOthers()
      requires notebook.Valid()
      modifies notebook, notebook.Repr`column
      ensures notebook.Valid()
      ensures forall p :: p in notebook.pages ==> p.tab == this && p in old(notebook.pages)
      ensures |notebook.pages| <= 1
      ensures ContentsDistinct(old(notebook.pages)) ==>
        notebook.pages == match Find(old(notebook.pages), ByTab(this))
                          case None => []
                          case Some(i) => [old(notebook.pages)[i]]
      ensures notebook.Repr == old(notebook.Repr)
      ensures notebook.tabChangedEvents == old(notebook.tabChangedEvents)
    {
      notebook.CloseTabs(Some(this));
      KeptIsExceptedPage(old(notebook.pages), Some(this));
    }

    /** `_close_all_tabs` (the menu's "Close all"). */
    method CloseAll()
      requires notebook.Valid()
      modifies notebook, notebook.Repr`column
      ensures notebook.Valid()
      ensures notebook.pages == [] && notebook.currentPage == None
      ensures notebook.Repr == old(notebook.Repr)
      ensures notebook.tabChangedEvents == old(notebook.tabChangedEvents)
    {
      notebook.CloseTabs(None);
    }
  }

  /** Forgetting the current page makes its neighbour current without
      activating its tab, and clicking that tab is then a no-op, so the
      notebook keeps showing no active tab. */
  method ForgetLeavesCurrentTabInactive(a: Widget, b: Widget) returns (nb: Notebook)
    requires a != b
    ensures nb.Valid() && |nb.pages| == 1 && nb.pages[0].content == a
    ensures nb.currentPage == Some(nb.pages[0]) && !nb.pages[0].tab.active
  {
    nb := new Notebook(true);
    nb.Add(a, "a.py");
    nb.Add(b, "b.py");
    var forgot := nb.Forget(b);
    var clicked := nb.pages[0].tab.OnClick();
  }
}
