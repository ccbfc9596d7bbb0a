/** The page bookkeeping of thonny's CustomNotebook, as values.

    A notebook page pairs a tab header with a content widget. This module
    states, over plain sequences of pages, what the notebook's list
    operations do: first-match lookup, positional insert, removal, the rule
    that picks the next current page after a removal, and the pages that
    survive a bulk close. The class in module CustomNotebook is proved
    against these functions.
 */
module NotebookPages {

  datatype Option<T> = None | Some(value: T)

  /** The Python exception kinds the notebook raises. */
  datatype Error = IndexError | ValueError | RuntimeError

  /** Completion of an operation that returns nothing in Python. */
  datatype Outcome = Pass | Fail(error: Error)

  /** Completion of an operation that returns a value in Python. */
  datatype Result<T> = Ok(value: T) | Err(error: Error)

  /** A content widget. Tk identifies a child of a window by its path
      name, so the name is the widget's identity: `winfo_name` is injective. */
  datatype Widget = Widget(name: string)

  /** What `index`, `select` and `tab` accept: a widget, or a string that
      is either the sentinel "end" or a widget's name. */
  datatype TabId = Child(widget: Widget) | Name(text: string)

  const EndSentinel: TabId := Name("end")

  /** Where `insert` puts a page: the string "end" or a Python int. */
  datatype Position = End | At(index: int)

  /** A notebook page: a tab header and the content it shows. */
  datatype Page<T> = Page(tab: T, content: Widget)

  /** The three ways the notebook searches its pages: by tab
      (`select_tab`, `close_tab`), by content identity (`forget`), and by
      tab id (`index`: the widget itself or its name). */
  datatype Key<T> = ByTab(tab: T) | ByContent(content: Widget) | ById(id: TabId)

  predicate Hit<T(==)>(p: Page<T>, k: Key<T>) {
    match k
    case ByTab(t) => p.tab == t
    case ByContent(w) => p.content == w
    case ById(Child(w)) => p.content == w
    case ById(Name(n)) => p.content.name == n
  }

  /** The position a `for i, page in enumerate(pages)` search stops at:
      the first page that matches, or None when no page does. */
  function Find<T(==)>(s: seq<Page<T>>, k: Key<T>): (r: Option<nat>)
    ensures r.Some? ==> r.value < |s| && Hit(s[r.value], k)
    ensures r.Some? ==> forall j :: 0 <= j < r.value ==> !Hit(s[j], k)
    ensures r.None? ==> forall j :: 0 <= j < |s| ==> !Hit(s[j], k)
  {
    if s == [] then None
    else if Hit(s[0], k) then Some(0)
    else match Find(s[1..], k)
      case None => None
      case Some(i) => Some(i + 1)
  }

  /** What `index(tab_id)` returns: the number of pages for "end",
      otherwise the first page whose content is the widget or has the
      name, and RuntimeError when there is none. */
  function Lookup<T(==)>(s: seq<Page<T>>, id: TabId): (r: Result<nat>)
    ensures id == EndSentinel ==> r == Ok(|s|)
    ensures id != EndSentinel && r.Ok? ==>
      r.value < |s| && Hit(s[r.value], ById(id)) &&
      forall j :: 0 <= j < r.value ==> !Hit(s[j], ById(id))
    ensures id != EndSentinel && r.Err? ==>
      r.error == RuntimeError && forall j :: 0 <= j < |s| ==> !Hit(s[j], ById(id))
  {
    if id == EndSentinel then Ok(|s|)
    else match Find(s, ById(id))
      case None => Err(RuntimeError)
      case Some(i) => Ok(i)
  }

  /** The index at which Python's `list.insert(pos, x)` (or `append` for
      "end") places `x` in a list of length n: a negative position counts
      from the end, and positions out of range are clamped. */
  function InsertionIndex(pos: Position, n: nat): (r: nat)
    ensures r <= n
    ensures pos.End? ==> r == n
    ensures pos.At? && 0 <= pos.index <= n ==> r == pos.index
    ensures pos.At? && pos.index > n ==> r == n
    ensures pos.At? && pos.index < 0 ==> r == if n + pos.index < 0 then 0 else n + pos.index
  {
    match pos
    case End => n
    case At(i) =>
      if i < 0 then (if n + i < 0 then 0 else n + i)
      else if i > n then n
      else i
  }

  /** `s` with `x` placed at index i: earlier elements keep their index,
      later ones move one to the right. */
  function InsertAt<T>(s: seq<T>, i: nat, x: T): (r: seq<T>)
    requires i <= |s|
    ensures |r| == |s| + 1 && r[i] == x
    ensures forall j :: 0 <= j < i ==> r[j] == s[j]
    ensures forall j :: i < j < |r| ==> r[j] == s[j - 1]
  {
    s[..i] + [x] + s[i..]
  }

  /** `s` without its element at index i (Python's `del s[i]`): earlier
      elements keep their index, later ones move one to the left. */
  function RemoveAt<T>(s: seq<T>, i: nat): (r: seq<T>)
    requires i < |s|
    ensures |r| == |s| - 1
    ensures forall j :: 0 <= j < i ==> r[j] == s[j]
    ensures forall j :: i <= j < |r| ==> r[j] == s[j + 1]
  {
    s[..i] + s[i + 1..]
  }

  lemma RemoveUndoesInsert<T>(s: seq<T>, i: nat, x: T)
    requires i <= |s|
    ensures RemoveAt(InsertAt(s, i, x), i) == s
  {
  }

  lemma InsertUndoesRemove<T>(s: seq<T>, i: nat)
    requires i < |s|
    ensures InsertAt(RemoveAt(s, i), i, s[i]) == s
  {
  }

  /** The notebook invariant: there is no current page exactly when there
      are no pages, and a current page is one of the pages. */
  predicate CurrentOk<T(==)>(s: seq<Page<T>>, current: Option<Page<T>>) {
    (current.None? <==> s == []) && (current.Some? ==> current.value in s)
  }

  /** The page `forget` makes current once the page at index i has been
      removed and `rest` is left: the page now at index i, else the last
      page, else none. It does not depend on which page was current. */
  function NextCurrent<T(==)>(rest: seq<Page<T>>, i: nat): (r: Option<Page<T>>)
    ensures CurrentOk(rest, r)
  {
    if |rest| == 0 then None
    else if |rest| > i then Some(rest[i])
    else Some(rest[|rest| - 1])
  }

  /** The tie-break of `forget` in terms of the list before the removal:
      the right neighbour, or the left one when the last page went, or
      nothing when the only page went. */
  lemma ForgetTieBreak<T>(s: seq<Page<T>>, i: nat)
    requires i < |s|
    ensures |s| == 1 ==> NextCurrent(RemoveAt(s, i), i) == None
    ensures i + 1 < |s| ==> NextCurrent(RemoveAt(s, i), i) == Some(s[i + 1])
    ensures 1 < |s| == i + 1 ==> NextCurrent(RemoveAt(s, i), i) == Some(s[i - 1])
  {
  }

  /** The tabs of the pages. */
  ghost function TabsOf<T>(s: seq<Page<T>>): set<T> {
    set p | p in s :: p.tab
  }

  lemma TabsOfInsert<T>(s: seq<Page<T>>, i: nat, p: Page<T>)
    requires i <= |s|
    ensures TabsOf(InsertAt(s, i, p)) == TabsOf(s) + {p.tab}
  {
  }

  lemma TabsOfRemove<T>(s: seq<Page<T>>, i: nat)
    requires i < |s| && TabsDistinct(s)
    ensures TabsOf(RemoveAt(s, i)) == TabsOf(s) - {s[i].tab}
  {
  }

  predicate TabsDistinct<T(==)>(s: seq<Page<T>>) {
    forall i, j :: 0 <= i < j < |s| ==> s[i].tab != s[j].tab
  }

  predicate ContentsDistinct<T>(s: seq<Page<T>>) {
    forall i, j :: 0 <= i < j < |s| ==> s[i].content != s[j].content
  }

  lemma RemoveKeepsDistinct<T>(s: seq<Page<T>>, i: nat)
    requires i < |s|
    ensures TabsDistinct(s) ==> TabsDistinct(RemoveAt(s, i))
    ensures ContentsDistinct(s) ==> ContentsDistinct(RemoveAt(s, i))
  {
  }

  /** With distinct contents, a search by a page's own content finds that
      page: this is what lets `close_tab` forget the right page. */
  lemma FindOwnContent<T>(s: seq<Page<T>>, i: nat)
    requires ContentsDistinct(s) && i < |s|
    ensures Find(s, ByContent(s[i].content)) == Some(i)
  {
  }

  /** A tab belongs to at most one page, so a search by tab finds exactly
      the page that holds it. */
  lemma FindOwnTab<T>(s: seq<Page<T>>, i: nat)
    requires TabsDistinct(s) && i < |s|
    ensures Find(s, ByTab(s[i].tab)) == Some(i)
  {
  }

  /** The pages a bulk close leaves: those whose tab is `keep`. */
  function Kept<T(==)>(s: seq<Page<T>>, keep: Option<T>): (r: seq<Page<T>>)
    ensures forall p :: p in r ==> p in s && Some(p.tab) == keep
    ensures forall p :: p in s && Some(p.tab) == keep ==> p in r
  {
    if s == [] then []
    else (if Some(s[0].tab) == keep then [s[0]] else []) + Kept(s[1..], keep)
  }

  /** "Close others" leaves exactly the page of the excepted tab when that
      tab is present, and "close all" (or an absent tab) leaves nothing. */
  lemma {:induction false} KeptIsExceptedPage<T>(s: seq<Page<T>>, keep: Option<T>)
    requires TabsDistinct(s)
    ensures keep.None? ==> Kept(s, keep) == []
    ensures keep.Some? && Find(s, ByTab(keep.value)).None? ==> Kept(s, keep) == []
    ensures keep.Some? && Find(s, ByTab(keep.value)).Some? ==>
      Kept(s, keep) == [s[Find(s, ByTab(keep.value)).value]]
  {
    if s != [] {
      var tail := s[1..];
      assert TabsDistinct(tail) by {
        forall i, j | 0 <= i < j < |tail| ensures tail[i].tab != tail[j].tab {
          assert tail[i] == s[i + 1] && tail[j] == s[j + 1];
        }
      }
      KeptIsExceptedPage(tail, keep);
      if keep.Some? && s[0].tab == keep.value {
        assert forall j :: 0 <= j < |tail| ==> !Hit(tail[j], ByTab(keep.value)) by {
          forall j | 0 <= j < |tail| ensures !Hit(tail[j], ByTab(keep.value)) {
            assert tail[j] == s[j + 1];
          }
        }
        assert Find(tail, ByTab(keep.value)).None?;
      }
    }
  }

  /** One step of a bulk close walking from the back: if the pages from
      `k + 1` on have already been filtered, then keeping page `k` (its tab
      is `keep`) or removing it (it is not) leaves the pages from `k` on
      filtered. */
  lemma KeptStep<T>(orig: seq<Page<T>>, k: nat, keep: Option<T>, s: seq<Page<T>>)
    requires k < |orig|
    requires s == orig[..k + 1] + Kept(orig[k + 1..], keep)
    ensures k < |s| && s[k] == orig[k]
    ensures Some(orig[k].tab) == keep ==> s == orig[..k] + Kept(orig[k..], keep)
    ensures Some(orig[k].tab) != keep ==> RemoveAt(s, k) == orig[..k] + Kept(orig[k..], keep)
  {
    assert orig[k..][1..] == orig[k + 1..];
    assert orig[..k + 1] == orig[..k] + [orig[k]];
    assert Kept(orig[k..], keep) ==
      (if Some(orig[k].tab) == keep then [orig[k]] else []) + Kept(orig[k + 1..], keep);
  }

  /** Where the walk of `close_tabs` over `orig` stands when its next
      position is `k`: the pages after `k` all carry `keep`, every page
      left is one of `orig`, and with distinct contents the pages are
      `orig` up to `k` followed by the kept part of the rest. */
  ghost predicate ClosingFrom<T>(s: seq<Page<T>>, k: int, keep: Option<T>, orig: seq<Page<T>>) {
    -1 <= k < |orig| && k + 1 <= |s| &&
    (forall j :: k < j < |s| ==> Some(s[j].tab) == keep) &&
    (forall p :: p in s ==> p in orig) &&
    (ContentsDistinct(orig) ==>
      ContentsDistinct(s) && s == orig[..k + 1] + Kept(orig[k + 1..], keep))
  }

  /** When the walk has passed the first page, what remains is drawn from
      `orig` and carries `keep`: at most one page, none for "close all",
      and exactly the kept pages when the contents were distinct. */
  lemma ClosingDone<T>(s: seq<Page<T>>, keep: Option<T>, orig: seq<Page<T>>)
    requires TabsDistinct(s) && ClosingFrom(s, -1, keep, orig)
    ensures forall p :: p in s ==> Some(p.tab) == keep && p in orig
    ensures |s| <= 1 && (keep.None? ==> s == [])
    ensures ContentsDistinct(orig) ==> s == Kept(orig, keep)
  {
    AtMostOnePageOf(s, keep);
    assert orig[..0] == [] && orig[0..] == orig;
    if |s| > 0 {
      assert Some(s[0].tab) == keep;
    }
  }

  /** Deleting a page adds no page: what remains of a list of pages
      drawn from `orig` is still drawn from `orig`. */
  lemma RemoveKeepsOnlyOld<T>(s: seq<Page<T>>, i: nat, orig: seq<Page<T>>)
    requires i < |s| && forall p :: p in s ==> p in orig
    ensures forall p :: p in RemoveAt(s, i) ==> p in orig
  {
    forall p | p in RemoveAt(s, i) ensures p in orig {
      var j :| 0 <= j < |RemoveAt(s, i)| && RemoveAt(s, i)[j] == p;
      assert p == s[if j < i then j else j + 1];
    }
  }

  /** The pages after index `k` all carry `keep`; removing a page at or
      before `k` keeps that true of the pages from `k` on. */
  lemma RemoveKeepsTail<T>(s: seq<Page<T>>, i: nat, k: nat, keep: Option<T>)
    requires i <= k < |s|
    requires forall j :: k < j < |s| ==> Some(s[j].tab) == keep
    ensures forall j :: k <= j < |s| - 1 ==> Some(RemoveAt(s, i)[j].tab) == keep
  {
  }

  /** With distinct tabs, at most one page can carry a given tab. */
  lemma AtMostOnePageOf<T>(s: seq<Page<T>>, keep: Option<T>)
    requires TabsDistinct(s)
    requires forall j :: 0 <= j < |s| ==> Some(s[j].tab) == keep
    ensures |s| <= 1
  {
    if |s| > 0 {
      assert s[0].tab == s[|s| - 1].tab;
    }
  }

  /** The ids `tabs()` reports, in page order. */
  function NamesOf<T>(s: seq<Page<T>>): (r: seq<string>)
    ensures |r| == |s|
    ensures forall i :: 0 <= i < |s| ==> r[i] == s[i].content.name
  {
    seq(|s|, i requires 0 <= i < |s| => s[i].content.name)
  }

  /** The widgets `winfo_children()` reports, in page order. */
  function ContentsOf<T>(s: seq<Page<T>>): (r: seq<Widget>)
    ensures |r| == |s|
    ensures forall i :: 0 <= i < |s| ==> r[i] == s[i].content
  {
    seq(|s|, i requires 0 <= i < |s| => s[i].content)
  }

  /** Feeding an id reported by `tabs()` back to `index` finds its page,
      unless the widget's name is the sentinel "end". */
  lemma LookupReportedName<T>(s: seq<Page<T>>, i: nat)
    requires i < |s|
    ensures ContentsDistinct(s) && NamesOf(s)[i] != "end" ==> Lookup(s, Name(NamesOf(s)[i])) == Ok(i)
    ensures NamesOf(s)[i] == "end" ==> Lookup(s, Name(NamesOf(s)[i])) == Ok(|s|)
  {
  }

  /** Feeding a widget reported by `winfo_children()` back to `index`
      finds its page. */
  lemma LookupReportedChild<T>(s: seq<Page<T>>, i: nat)
    requires i < |s|
    ensures ContentsDistinct(s) ==> Lookup(s, Child(ContentsOf(s)[i])) == Ok(i)
  {
  }
}
