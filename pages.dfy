/** The page list of the notes screen and the pure rebuilds of it: the sidebar
    order (`sortedPages`), `pages.find`, and the `map`/`filter` rebuilds behind
    toggling a favorite, editing a title or content, and deleting a page. */
module Pages {
  import opened Wrappers
  import opened Strings

  /** One note as the client holds it. `content == None` is a record whose
      `content` field is undefined. */
  datatype Page = Page(id: int, title: string, content: Option<string>, isFavorite: bool)

  predicate HasId(pages: seq<Page>, id: int) {
    exists i :: 0 <= i < |pages| && pages[i].id == id
  }

  predicate UniqueIds(pages: seq<Page>) {
    forall i, j :: 0 <= i < j < |pages| ==> pages[i].id != pages[j].id
  }

  function Ids(pages: seq<Page>): (r: seq<int>)
    ensures |r| == |pages| && forall i :: 0 <= i < |pages| ==> r[i] == pages[i].id
  {
    if pages == [] then [] else [pages[0].id] + Ids(pages[1..])
  }

  // ---------------------------------------------------------------------------
  // Sidebar order

  function FavoriteRank(p: Page): int {
    if p.isFavorite then 1 else 0
  }

  /** The comparator given to `sort`: favorites first (`b.isFavorite - a.isFavorite`),
      then ascending id (`a.id - b.id`). Negative means `a` goes first. */
  function Compare(a: Page, b: Page): int {
    if a.isFavorite == b.isFavorite then a.id - b.id else FavoriteRank(b) - FavoriteRank(a)
  }

  /** The comparator is consistent, as `sort` needs: its sign flips when the arguments
      are swapped, and "goes no later than" is total and transitive. */
  lemma CompareConsistent(a: Page, b: Page, c: Page)
    ensures Compare(a, b) < 0 <==> Compare(b, a) > 0
    ensures Compare(a, b) == 0 <==> (a.isFavorite == b.isFavorite && a.id == b.id)
    ensures Compare(a, b) <= 0 || Compare(b, a) <= 0
    ensures Compare(a, b) <= 0 && Compare(b, c) <= 0 ==> Compare(a, c) <= 0
  {
  }

  predicate Sorted(s: seq<Page>) {
    forall i, j :: 0 <= i < j < |s| ==> Compare(s[i], s[j]) <= 0
  }

  /** Puts `p` in front of the first element it does not go after, so that equal
      elements keep their relative order (the sort is stable, as `Array.prototype.sort` is). */
  function Insert(p: Page, s: seq<Page>): (r: seq<Page>)
    ensures multiset(r) == multiset(s) + multiset{p}
  {
    if s == [] || Compare(p, s[0]) <= 0 then
      [p] + s
    else
      assert s == [s[0]] + s[1..];
      [s[0]] + Insert(p, s[1..])
  }

  lemma {:induction false} InsertSorted(p: Page, s: seq<Page>)
    requires Sorted(s)
    ensures Sorted(Insert(p, s))
  {
    if s != [] && Compare(p, s[0]) > 0 {
      InsertSorted(p, s[1..]);
      InsertAbove(p, s);
      SortedCons(s[0], Insert(p, s[1..]));
    }
  }

  /** When `p` goes after the head of a sorted `s`, so does everything it is inserted among. */
  lemma InsertAbove(p: Page, s: seq<Page>)
    requires Sorted(s) && s != [] && Compare(p, s[0]) > 0
    ensures forall k :: 0 <= k < |Insert(p, s[1..])| ==> Compare(s[0], Insert(p, s[1..])[k]) <= 0
  {
    var rest := Insert(p, s[1..]);
    forall k | 0 <= k < |rest|
      ensures Compare(s[0], rest[k]) <= 0
    {
      assert rest[k] in multiset(rest);
      if rest[k] != p {
        assert rest[k] in multiset(s[1..]);
        assert rest[k] in s[1..];
      }
    }
  }

  lemma SortedCons(x: Page, rest: seq<Page>)
    requires Sorted(rest)
    requires forall k :: 0 <= k < |rest| ==> Compare(x, rest[k]) <= 0
    ensures Sorted([x] + rest)
  {
    var r := [x] + rest;
    forall i, j | 0 <= i < j < |r| ensures Compare(r[i], r[j]) <= 0 {
      assert r[j] == rest[j - 1];
      if i > 0 {
        assert r[i] == rest[i - 1];
      }
    }
  }

  /** `[...pages].sort(comparator)`: a sorted copy; `pages` itself is not changed. */
  function SortPages(pages: seq<Page>): (r: seq<Page>)
    ensures multiset(r) == multiset(pages)
    ensures Sorted(r)
  {
    if pages == [] then []
    else
      assert pages == [pages[0]] + pages[1..];
      var rest := SortPages(pages[1..]);
      InsertSorted(pages[0], rest);
      Insert(pages[0], rest)
  }

  /** The sidebar lists the same pages, every favorite above every non-favorite, and
      by ascending id among pages of the same favorite status. */
  lemma SortedPagesOrder(pages: seq<Page>, i: nat, j: nat)
    requires i < j < |pages|
    ensures |SortPages(pages)| == |pages|
    ensures var s := SortPages(pages);
      && (s[j].isFavorite ==> s[i].isFavorite)
      && (s[i].isFavorite == s[j].isFavorite ==> s[i].id <= s[j].id)
  {
    var s := SortPages(pages);
    assert |s| == |multiset(s)| == |multiset(pages)| == |pages|;
    assert Compare(s[i], s[j]) <= 0;
  }

  // ---------------------------------------------------------------------------
  // Lookup and the `map` rebuild

  /** `pages.find((p) => p.id === id)`: the first page with that id, if any. */
  function Find(pages: seq<Page>, id: int): (r: Option<Page>)
    ensures r.None? <==> !HasId(pages, id)
    ensures r.Some? ==> r.value in pages && r.value.id == id
  {
    if pages == [] then None
    else if pages[0].id == id then Some(pages[0])
    else
      var r := Find(pages[1..], id);
      assert HasId(pages[1..], id) <==> HasId(pages, id) by {
        if HasId(pages, id) {
          var i :| 0 <= i < |pages| && pages[i].id == id;
          assert pages[1..][i - 1].id == id;
        }
      }
      r
  }

  /** Position `i` holds the first page with `id`. */
  predicate FirstWithId(pages: seq<Page>, id: int, i: int) {
    0 <= i < |pages| && pages[i].id == id && forall k :: 0 <= k < i ==> pages[k].id != id
  }

  /** `find` returns the first page that carries the id, whatever comes after it. */
  lemma {:induction false} FindFirst(pages: seq<Page>, id: int, i: int)
    requires FirstWithId(pages, id, i)
    ensures Find(pages, id) == Some(pages[i])
  {
    if i > 0 {
      assert pages[0].id != id;
      assert FirstWithId(pages[1..], id, i - 1) by {
        forall k | 0 <= k < i - 1 ensures pages[1..][k].id != id {
          assert pages[1..][k] == pages[k + 1];
        }
      }
      FindFirst(pages[1..], id, i - 1);
    }
  }

  /** Looking an id up after a page was appended: a page already in the list wins. */
  lemma {:induction false} FindAppend(pages: seq<Page>, p: Page)
    ensures Find(pages + [p], p.id) == if HasId(pages, p.id) then Find(pages, p.id) else Some(p)
  {
    if pages == [] {
      assert pages + [p] == [p];
    } else {
      assert (pages + [p])[0] == pages[0];
      assert (pages + [p])[1..] == pages[1..] + [p];
      FindAppend(pages[1..], p);
      if pages[0].id != p.id {
        assert HasId(pages[1..], p.id) <==> HasId(pages, p.id) by {
          if HasId(pages, p.id) {
            var i :| 0 <= i < |pages| && pages[i].id == p.id;
            assert pages[1..][i - 1].id == p.id;
          }
        }
      }
    }
  }

  /** With unique ids, `find` yields the one page carrying the id. */
  lemma FindUnique(pages: seq<Page>, i: nat)
    requires UniqueIds(pages) && i < |pages|
    ensures Find(pages, pages[i].id) == Some(pages[i])
  {
    var r := Find(pages, pages[i].id);
    var j :| 0 <= j < |pages| && pages[j] == r.value;
    assert i == j;
  }

  /** `pages.map((p) => (p.id === id ? q : p))`: every page with that id becomes `q`,
      every other page stays where and what it was. */
  function ReplaceById(pages: seq<Page>, id: int, q: Page): (r: seq<Page>)
    ensures |r| == |pages|
    ensures forall i :: 0 <= i < |pages| ==> r[i] == if pages[i].id == id then q else pages[i]
  {
    if pages == [] then []
    else [if pages[0].id == id then q else pages[0]] + ReplaceById(pages[1..], id, q)
  }

  // ---------------------------------------------------------------------------
  // Favorite toggle

  /** The record `toggleFavorite` writes: the favorite flag negated and an undefined
      content coerced to `""`. */
  function Toggled(p: Page): Page {
    p.(isFavorite := !p.isFavorite, content := Some(p.content.GetOr("")))
  }

  /** The page list after `toggleFavorite(id)`. */
  function ToggleFavorite(pages: seq<Page>, id: int): (r: seq<Page>)
    ensures |r| == |pages| && Ids(r) == Ids(pages)
    ensures !HasId(pages, id) ==> r == pages
  {
    match Find(pages, id)
    case None => pages
    case Some(p) => ReplaceById(pages, id, Toggled(p))
  }

  /** With unique ids, toggling flips the flag of the page with that id, fills in an
      undefined content with `""`, and changes no other page. */
  lemma ToggleFavoriteEffect(pages: seq<Page>, i: nat)
    requires UniqueIds(pages) && i < |pages|
    ensures var r := ToggleFavorite(pages, pages[i].id);
      && r[i].isFavorite == !pages[i].isFavorite
      && r[i].content == Some(pages[i].content.GetOr(""))
      && r[i].id == pages[i].id && r[i].title == pages[i].title
      && forall j :: 0 <= j < |pages| && j != i ==> r[j] == pages[j]
  {
    FindUnique(pages, i);
  }

  /** Toggling twice gives back the list, except that undefined contents of the toggled
      page have become `""`. */
  lemma ToggleFavoriteTwice(pages: seq<Page>, id: int)
    requires UniqueIds(pages)
    requires forall i :: 0 <= i < |pages| ==> pages[i].content.Some?
    ensures ToggleFavorite(ToggleFavorite(pages, id), id) == pages
  {
    if HasId(pages, id) {
      var i :| 0 <= i < |pages| && pages[i].id == id;
      ToggleFavoriteEffect(pages, i);
      var once := ToggleFavorite(pages, id);
      SameIdsKeepUnique(pages, once);
      ToggleFavoriteEffect(once, i);
      var twice := ToggleFavorite(once, id);
      forall j | 0 <= j < |pages| ensures twice[j] == pages[j] {
        if j == i {
          assert pages[i].content.Some?;
        }
      }
    }
  }

  /** A list with the same ids, position by position, as one with unique ids has unique ids. */
  lemma SameIdsKeepUnique(a: seq<Page>, b: seq<Page>)
    requires UniqueIds(a) && Ids(a) == Ids(b)
    ensures UniqueIds(b)
  {
    forall i, j | 0 <= i < j < |b| ensures b[i].id != b[j].id {
      assert Ids(b)[i] == a[i].id && Ids(b)[j] == a[j].id;
    }
  }

  // ---------------------------------------------------------------------------
  // Title and content edits of the selected page

  /** The page list after `updateTitle(newTitle)` with `selectedId` selected: a no-op
      when no page has that id. */
  function UpdateTitle(pages: seq<Page>, selectedId: int, newTitle: string): (r: seq<Page>)
    ensures |r| == |pages| && Ids(r) == Ids(pages)
    ensures !HasId(pages, selectedId) ==> r == pages
  {
    match Find(pages, selectedId)
    case None => pages
    case Some(p) => ReplaceById(pages, selectedId, p.(title := newTitle))
  }

  /** The page list after `updateContent(newContent)` with `selectedId` selected. The
      handlers pass the editor's draft, which may be unset (`None`) and is stored as is. */
  function UpdateContent(pages: seq<Page>, selectedId: int, newContent: Option<string>): (r: seq<Page>)
    ensures |r| == |pages| && Ids(r) == Ids(pages)
    ensures !HasId(pages, selectedId) ==> r == pages
  {
    match Find(pages, selectedId)
    case None => pages
    case Some(p) => ReplaceById(pages, selectedId, p.(content := newContent))
  }

  /** With unique ids, only the selected page's title changes. */
  lemma UpdateTitleEffect(pages: seq<Page>, i: nat, newTitle: string)
    requires UniqueIds(pages) && i < |pages|
    ensures var r := UpdateTitle(pages, pages[i].id, newTitle);
      && r[i] == pages[i].(title := newTitle)
      && forall j :: 0 <= j < |pages| && j != i ==> r[j] == pages[j]
  {
    FindUnique(pages, i);
  }

  /** With unique ids, only the selected page's content changes. */
  lemma UpdateContentEffect(pages: seq<Page>, i: nat, newContent: Option<string>)
    requires UniqueIds(pages) && i < |pages|
    ensures var r := UpdateContent(pages, pages[i].id, newContent);
      && r[i] == pages[i].(content := newContent)
      && forall j :: 0 <= j < |pages| && j != i ==> r[j] == pages[j]
  {
    FindUnique(pages, i);
  }

  /** Of two successive title edits only the last one is visible. */
  lemma UpdateTitleLastWins(pages: seq<Page>, selectedId: int, a: string, b: string)
    ensures UpdateTitle(UpdateTitle(pages, selectedId, a), selectedId, b)
         == UpdateTitle(pages, selectedId, b)
  {
    if HasId(pages, selectedId) {
      FindFirstAfterReplace(pages, selectedId, Find(pages, selectedId).value.(title := a));
    }
  }

  /** Of two successive content edits only the last one is visible. */
  lemma UpdateContentLastWins(pages: seq<Page>, selectedId: int, a: Option<string>, b: Option<string>)
    ensures UpdateContent(UpdateContent(pages, selectedId, a), selectedId, b)
         == UpdateContent(pages, selectedId, b)
  {
    if HasId(pages, selectedId) {
      FindFirstAfterReplace(pages, selectedId, Find(pages, selectedId).value.(content := a));
    }
  }

  /** After every page with `id` is replaced by `q` (which keeps the id), `find` yields `q`. */
  lemma {:induction false} FindFirstAfterReplace(pages: seq<Page>, id: int, q: Page)
    requires HasId(pages, id) && q.id == id
    ensures Find(ReplaceById(pages, id, q), id) == Some(q)
  {
    if pages[0].id != id {
      assert HasId(pages[1..], id) by {
        var i :| 0 <= i < |pages| && pages[i].id == id;
        assert pages[1..][i - 1].id == id;
      }
      FindFirstAfterReplace(pages[1..], id, q);
      assert ReplaceById(pages, id, q)[1..] == ReplaceById(pages[1..], id, q);
    }
  }

  // ---------------------------------------------------------------------------
  // Delete and add

  /** `pages.filter((page) => page.id !== id)`. */
  function RemoveId(pages: seq<Page>, id: int): (r: seq<Page>)
    ensures |r| <= |pages|
    ensures forall p :: p in r <==> p in pages && p.id != id
    ensures !HasId(pages, id) ==> r == pages
  {
    if pages == [] then []
    else if pages[0].id == id then RemoveId(pages[1..], id)
    else [pages[0]] + RemoveId(pages[1..], id)
  }

  /** Filtering keeps the order: the result for a concatenation is the concatenation of
      the results. */
  lemma {:induction false} RemoveIdConcat(a: seq<Page>, b: seq<Page>, id: int)
    ensures RemoveId(a + b, id) == RemoveId(a, id) + RemoveId(b, id)
  {
    if a == [] {
      assert a + b == b;
    } else {
      assert (a + b)[0] == a[0];
      assert (a + b)[1..] == a[1..] + b;
      RemoveIdConcat(a[1..], b, id);
    }
  }

  /** Exactly the pages with `id` go: as many as the list held. */
  lemma {:induction false} RemoveIdCount(pages: seq<Page>, id: int)
    ensures |RemoveId(pages, id)| + |IndicesWithId(pages, id)| == |pages|
  {
    if pages != [] {
      RemoveIdCount(pages[1..], id);
    }
  }

  function IndicesWithId(pages: seq<Page>, id: int): seq<nat> {
    if pages == [] then []
    else (if pages[0].id == id then [0] else []) + Shift(IndicesWithId(pages[1..], id))
  }

  function Shift(ks: seq<nat>): (r: seq<nat>)
    ensures |r| == |ks|
  {
    if ks == [] then [] else [ks[0] + 1] + Shift(ks[1..])
  }

  /** The title `addNewPage` sends for a list of `n` pages: `Untitled ${n + 1}`. */
  function NewPageTitle(n: nat): string {
    "Untitled " + NatToString(n + 1)
  }

  /** Lists of different lengths get different new-page titles. */
  lemma NewPageTitleInjective(m: nat, n: nat)
    requires NewPageTitle(m) == NewPageTitle(n)
    ensures m == n
  {
    var prefix := "Untitled ";
    assert NatToString(m + 1) == NewPageTitle(m)[|prefix|..];
    assert NatToString(n + 1) == NewPageTitle(n)[|prefix|..];
    NatToStringInjective(m + 1, n + 1);
  }
}
