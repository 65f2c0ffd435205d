/** The search handler of the notes screen: trim the term, give up on an empty
    one, otherwise count each page's case-insensitive, non-overlapping matches
    and collect one result per page with at least one, in page-list order. */
module Search {
  import opened Wrappers
  import opened Strings
  import opened Matching
  import opened Pages

  datatype SearchResult = SearchResult(id: int, title: string, matchCount: nat, word: string)

  /** What `handleSearch` leaves in `searchResults`, or that it threw (`page.content.match`
      on a page whose content is undefined raises a `TypeError`). */
  datatype SearchOutcome = Results(results: seq<SearchResult>) | TypeError

  predicate ContentsDefined(pages: seq<Page>) {
    forall i :: 0 <= i < |pages| ==> pages[i].content.Some?
  }

  function ResultFor(p: Page, term: string): SearchResult
    requires p.content.Some? && |term| > 0
  {
    SearchResult(p.id, p.title, Count(p.content.value, term), term)
  }

  predicate HasMatch(p: Page, term: string)
    requires p.content.Some? && |term| > 0
  {
    Count(p.content.value, term) > 0
  }

  /** The results the handler is meant to give: one per page that has a match, in the
      order of the page list. */
  function Matches(pages: seq<Page>, term: string): seq<SearchResult>
    requires |term| > 0 && ContentsDefined(pages)
  {
    if pages == [] then []
    else
      assert ContentsDefined(pages[1..]) by {
        forall i | 0 <= i < |pages| - 1 ensures pages[1..][i].content.Some? {
          assert pages[1..][i] == pages[i + 1];
        }
      }
      (if HasMatch(pages[0], term) then [ResultFor(pages[0], term)] else []) + Matches(pages[1..], term)
  }

  /** `resultsMap.set(r.id, r)` on a `Map` held as its entries in insertion order: a key
      already present keeps its place and takes the new value, a new key goes last. */
  function MapSet(entries: seq<SearchResult>, r: SearchResult): (out: seq<SearchResult>)
    ensures (exists i :: 0 <= i < |entries| && entries[i].id == r.id) ==> |out| == |entries|
    ensures forall i :: KeyFirstAt(entries, r.id, i) ==> out == entries[i := r]
    ensures !(exists i :: 0 <= i < |entries| && entries[i].id == r.id) ==> out == entries + [r]
  {
    if entries == [] then [r]
    else if entries[0].id == r.id then
      assert forall i :: KeyFirstAt(entries, r.id, i) ==> i == 0;
      [r] + entries[1..]
    else
      assert forall i :: KeyFirstAt(entries, r.id, i) ==> KeyFirstAt(entries[1..], r.id, i - 1) by {
        forall i | KeyFirstAt(entries, r.id, i) ensures KeyFirstAt(entries[1..], r.id, i - 1) {
          assert i != 0;
          forall k | 0 <= k < i - 1 ensures entries[1..][k].id != r.id {
            assert entries[1..][k] == entries[k + 1];
          }
        }
      }
      assert (exists i :: 0 <= i < |entries| && entries[i].id == r.id)
         <==> (exists i :: 0 <= i < |entries[1..]| && entries[1..][i].id == r.id) by {
        if exists i :: 0 <= i < |entries| && entries[i].id == r.id {
          var i :| 0 <= i < |entries| && entries[i].id == r.id;
          assert entries[1..][i - 1] == entries[i];
        }
      }
      [entries[0]] + MapSet(entries[1..], r)
  }

  /** Position `i` holds the entry with key `id`; keys are never repeated in a `Map`,
      and the first one is the one `set` finds. */
  predicate KeyFirstAt(entries: seq<SearchResult>, id: int, i: int) {
    0 <= i < |entries| && entries[i].id == id && forall k :: 0 <= k < i ==> entries[k].id != id
  }

  /** The entries of `resultsMap` after the handler has visited the first `n` pages
      in order. */
  function CollectUpTo(pages: seq<Page>, term: string, n: nat): seq<SearchResult>
    requires |term| > 0 && n <= |pages|
    requires forall k :: 0 <= k < n ==> pages[k].content.Some?
  {
    if n == 0 then []
    else
      var prev := CollectUpTo(pages, term, n - 1);
      if HasMatch(pages[n - 1], term) then MapSet(prev, ResultFor(pages[n - 1], term)) else prev
  }

  function Collect(pages: seq<Page>, term: string): seq<SearchResult>
    requires |term| > 0 && ContentsDefined(pages)
  {
    CollectUpTo(pages, term, |pages|)
  }

  /** `handleSearch`: `searchTerm` is the text of the search box. */
  method HandleSearch(pages: seq<Page>, searchTerm: string) returns (outcome: SearchOutcome)
    ensures Trim(searchTerm) == [] ==> outcome == Results([])
    ensures Trim(searchTerm) != [] && !ContentsDefined(pages) ==> outcome == TypeError
    ensures Trim(searchTerm) != [] && ContentsDefined(pages) ==>
      outcome == Results(Collect(pages, Trim(searchTerm)))
    ensures Trim(searchTerm) != [] && ContentsDefined(pages) && UniqueIds(pages) ==>
      outcome == Results(Matches(pages, Trim(searchTerm)))
  {
    var term := Trim(searchTerm);
    if term == [] {
      return Results([]);
    }
    outcome := CountMatches(pages, term);
    if ContentsDefined(pages) && UniqueIds(pages) {
      CollectIsMatches(pages, term);
    }
  }

  /** The handler's loop over the pages for a nonempty trimmed term. */
  method CountMatches(pages: seq<Page>, term: string) returns (outcome: SearchOutcome)
    requires |term| > 0
    ensures !ContentsDefined(pages) ==> outcome == TypeError
    ensures ContentsDefined(pages) ==> outcome == Results(Collect(pages, term))
  {
    var resultsMap: seq<SearchResult> := [];
    var i := 0;
    while i < |pages|
      invariant 0 <= i <= |pages|
      invariant forall k :: 0 <= k < i ==> pages[k].content.Some?
      invariant resultsMap == CollectUpTo(pages, term, i)
    {
      var page := pages[i];
      if page.content.None? {
        return TypeError;
      }
      var matches := Count(page.content.value, term);
      if matches > 0 {
        resultsMap := MapSet(resultsMap, SearchResult(page.id, page.title, matches, term));
      }
      i := i + 1;
    }
    return Results(resultsMap);
  }

  // ---------------------------------------------------------------------------
  // What the results mean

  predicate IsResultOf(r: SearchResult, pages: seq<Page>, term: string)
    requires |term| > 0 && ContentsDefined(pages)
  {
    exists i :: 0 <= i < |pages| && HasMatch(pages[i], term) && r == ResultFor(pages[i], term)
  }

  /** A result stands for a page that has a match, and every such page has its result:
      its id, its title, the number of non-overlapping matches (at least one) and the
      trimmed term. Pages without a match have none. */
  lemma {:induction false} MatchesExactlyTheMatchingPages(pages: seq<Page>, term: string, r: SearchResult)
    requires |term| > 0 && ContentsDefined(pages)
    ensures r in Matches(pages, term) <==> IsResultOf(r, pages, term)
    ensures r in Matches(pages, term) ==> r.matchCount >= 1 && r.word == term
  {
    if pages != [] {
      assert ContentsDefined(pages[1..]) by {
        forall i | 0 <= i < |pages| - 1 ensures pages[1..][i].content.Some? {
          assert pages[1..][i] == pages[i + 1];
        }
      }
      MatchesExactlyTheMatchingPages(pages[1..], term, r);
      if IsResultOf(r, pages, term) {
        var i :| 0 <= i < |pages| && HasMatch(pages[i], term) && r == ResultFor(pages[i], term);
        if i > 0 {
          assert pages[1..][i - 1] == pages[i];
        }
      }
      if IsResultOf(r, pages[1..], term) {
        var i :| 0 <= i < |pages[1..]| && HasMatch(pages[1..][i], term) && r == ResultFor(pages[1..][i], term);
        assert pages[i + 1] == pages[1..][i];
      }
    }
  }

  /** Results come in page-list order: searching a concatenation gives the results of
      the first part followed by those of the second. */
  lemma {:induction false} MatchesConcat(a: seq<Page>, b: seq<Page>, term: string)
    requires |term| > 0 && ContentsDefined(a) && ContentsDefined(b)
    ensures ContentsDefined(a + b)
    ensures Matches(a + b, term) == Matches(a, term) + Matches(b, term)
  {
    assert ContentsDefined(a + b) by {
      forall i | 0 <= i < |a + b| ensures (a + b)[i].content.Some? {
        if i < |a| {
          assert (a + b)[i] == a[i];
        } else {
          assert (a + b)[i] == b[i - |a|];
        }
      }
    }
    if a == [] {
      assert a + b == b;
    } else {
      assert (a + b)[0] == a[0];
      assert (a + b)[1..] == a[1..] + b;
      assert ContentsDefined(a[1..]) by {
        forall i | 0 <= i < |a| - 1 ensures a[1..][i].content.Some? {
          assert a[1..][i] == a[i + 1];
        }
      }
      MatchesConcat(a[1..], b, term);
    }
  }

  /** Every result id belongs to a page of the list. */
  lemma {:induction false} MatchesIdsFromPages(pages: seq<Page>, term: string, k: nat)
    requires |term| > 0 && ContentsDefined(pages)
    requires k < |Matches(pages, term)|
    ensures HasId(pages, Matches(pages, term)[k].id)
  {
    var r := Matches(pages, term)[k];
    MatchesExactlyTheMatchingPages(pages, term, r);
  }

  /** With unique page ids the `Map` never overwrites an entry, so the handler's results
      are exactly the reference results. */
  lemma CollectIsMatches(pages: seq<Page>, term: string)
    requires |term| > 0 && ContentsDefined(pages) && UniqueIds(pages)
    ensures Collect(pages, term) == Matches(pages, term)
  {
    CollectUpToIsMatches(pages, term, |pages|);
    assert pages[..|pages|] == pages;
  }

  lemma {:induction false} CollectUpToIsMatches(pages: seq<Page>, term: string, n: nat)
    requires |term| > 0 && ContentsDefined(pages) && UniqueIds(pages) && n <= |pages|
    ensures ContentsDefined(pages[..n])
    ensures CollectUpTo(pages, term, n) == Matches(pages[..n], term)
  {
    if n > 0 {
      var prefix := pages[..n - 1];
      var last := pages[n - 1];
      assert pages[..n] == prefix + [last];
      assert ContentsDefined([last]);
      CollectUpToIsMatches(pages, term, n - 1);
      MatchesConcat(prefix, [last], term);
      assert Matches([last], term) == (if HasMatch(last, term) then [ResultFor(last, term)] else []) + Matches([], term);
      if HasMatch(last, term) {
        var m := Matches(prefix, term);
        if exists i :: 0 <= i < |m| && m[i].id == last.id {
          var i :| 0 <= i < |m| && m[i].id == last.id;
          MatchesIdsFromPages(prefix, term, i);
          assert false;
        }
      }
    } else {
      assert pages[..0] == [];
    }
  }

  /** The worked example: with pages "cat cat dog" and "no match here", the term "cat"
      gives one result, for the first page, with two matches. */
  lemma CatExample()
    ensures var pages := [Page(1, "A", Some("cat cat dog"), false), Page(2, "B", Some("no match here"), false)];
      Matches(pages, "cat") == [SearchResult(1, "A", 2, "cat")]
  {
    CatCount();
    NoCat();
    var pages := [Page(1, "A", Some("cat cat dog"), false), Page(2, "B", Some("no match here"), false)];
    assert pages[1..][1..] == [];
  }

  lemma CatCount()
    ensures Count("cat cat dog", "cat") == 2
  {
    var s := "cat cat dog";
    assert MatchAt(s, "cat", 0) by { assert s[0..3] == "cat"; }
    assert !MatchAt(s, "cat", 3) by { assert Lower(s[3..6])[0] == ' '; }
    assert MatchAt(s, "cat", 4) by { assert s[4..7] == "cat"; }
    assert !MatchAt(s, "cat", 7) by { assert Lower(s[7..10])[0] == ' '; }
    assert !MatchAt(s, "cat", 8) by { assert Lower(s[8..11])[0] == 'd'; }
    assert CountFrom(s, "cat", 8) == 0;
    assert CountFrom(s, "cat", 7) == 0;
    assert CountFrom(s, "cat", 4) == 1;
    assert CountFrom(s, "cat", 3) == 1;
  }

  lemma NoCat()
    ensures Count("no match here", "cat") == 0
  {
    var u := "no match here";
    forall j: nat | j + 3 <= |u| ensures !MatchAt(u, "cat", j) {
      if u[j] == 'c' {
        assert j == 6;
        assert Lower(u[j..j + 3])[1] == 'h';
      } else if u[j] != 'C' {
        assert Lower(u[j..j + 3])[0] != 'c';
      }
    }
    CountPositiveIffOccurs(u, "cat");
  }
}
